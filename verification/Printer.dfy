/** printf as the kernel runs it: digits gathered in a local buffer, a loop driven by a state, and
    the finished text handed to the terminal. */
module Printer {
  import opened Formatting
  import Terminal

  function Reversed(s: string): (r: string)
    ensures |r| == |s|
  {
    if s == "" then "" else Reversed(s[1..]) + [s[0]]
  }

  lemma {:induction false} ReversedGrows(s: string, c: char)
    ensures Reversed(s + [c]) == [c] + Reversed(s)
  {
    if s == "" {
      assert ("" + [c])[1..] == "";
    } else {
      assert (s + [c])[1..] == s[1..] + [c];
      ReversedGrows(s[1..], c);
    }
  }

  lemma DigitsUnfold(n: nat, base: nat)
    requires base == 10 || base == 16
    ensures n % base < 16 && (n > 0 ==> n / base < n)
    ensures Digits(n, base) == (if n / base == 0 then "" else Digits(n / base, base)) + [Digit(n % base)]
  {
    Quotient(n, base);
  }

  // The digits of n, the least significant first.
  method DigitBuffer(num: nat, base: nat) returns (buf: string)
    requires base == 10 || base == 16
    ensures Reversed(buf) == Digits(num, base)
  {
    hide Digits, Digit;
    DigitsUnfold(num, base);
    buf := [Digit(num % base)];
    assert Reversed(buf) == [Digit(num % base)];
    var n: nat := num / base;
    while n > 0
      invariant Digits(num, base) == (if n == 0 then "" else Digits(n, base)) + Reversed(buf)
    {
      DigitsUnfold(n, base);
      ReversedGrows(buf, Digit(n % base));
      buf := buf + [Digit(n % base)];
      n := n / base;
    }
  }

  // Zeros up to the least number of digits asked for.
  method Padded(digits: string, minDigits: nat) returns (buf: string)
    ensures Reversed(buf) == AtLeast(Reversed(digits), minDigits)
  {
    buf := digits;
    while |buf| < minDigits
      invariant |buf| >= |digits|
      invariant |buf| > |digits| ==> |buf| <= minDigits
      invariant Reversed(buf) == Repeat('0', |buf| - |digits|) + Reversed(digits)
    {
      ReversedGrows(buf, '0');
      buf := buf + ['0'];
    }
  }

  lemma ReversedFrom(buf: string, i: nat)
    requires 0 < i <= |buf|
    ensures Reversed(buf[..i]) == [buf[i - 1]] + Reversed(buf[..i - 1])
  {
    ReversedGrows(buf[..i - 1], buf[i - 1]);
    assert buf[..i] == buf[..i - 1] + [buf[i - 1]];
  }

  // ---------- Reading a conversion ----------

  lemma ValueIsNatural(s: string)
    requires forall i :: 0 <= i < |s| ==> IsDecimal(s[i])
    ensures Value(s, 10) >= 0
  {
    if s != "" { ValueIsNatural(s[..|s| - 1]); }
  }

  // One more digit of a width or a precision.
  lemma RunGrows(fmt: string, from: nat, i: nat)
    requires from <= i < |fmt| && IsDecimal(fmt[i])
    ensures DecimalRun(fmt[i..]) == 1 + DecimalRun(fmt[i + 1..])
    ensures Value(fmt[from..i + 1], 10) == Value(fmt[from..i], 10) * 10 + DigitValue(fmt[i])
  {
    hide Value;
    assert fmt[i..][1..] == fmt[i + 1..];
    assert fmt[from..i + 1] == fmt[from..i] + [fmt[i]];
    ValueOfOneMore(fmt[from..i], fmt[i], 10);
  }

  method ReadDigits(fmt: string, from: nat) returns (value: nat, i: nat)
    requires from <= |fmt|
    ensures i == from + DecimalRun(fmt[from..]) && value == NumberAt(fmt[from..])
  {
    hide Value;
    value, i := 0, from;
    ValueOfNone(10);
    assert fmt[from..from] == "";
    while IsDecimal(CharAt(fmt, i))
      invariant from <= i <= |fmt| && i - from + DecimalRun(fmt[i..]) == DecimalRun(fmt[from..])
      invariant value == Value(fmt[from..i], 10)
      decreases |fmt| - i
    {
      RunGrows(fmt, from, i);
      value := value * 10 + (fmt[i] as int - '0' as int);
      i := i + 1;
    }
    assert DecimalRun(fmt[i..]) == 0;
    assert fmt[from..][..i - from] == fmt[from..i];
  }

  lemma FlagsGrow(fmt: string, from: nat, i: nat)
    requires from <= i < |fmt| && IsFlag(fmt[i])
    ensures FlagRun(fmt[i..]) == 1 + FlagRun(fmt[i + 1..])
    ensures Flagged('#', fmt[from..i + 1]) == (Flagged('#', fmt[from..i]) || fmt[i] == '#')
    ensures Flagged('-', fmt[from..i + 1]) == (Flagged('-', fmt[from..i]) || fmt[i] == '-')
  {
    assert fmt[i..][1..] == fmt[i + 1..];
    assert fmt[from..i + 1] == fmt[from..i] + [fmt[i]];
  }

  lemma NoFlagsYet(fmt: string, from: nat)
    requires from <= |fmt|
    ensures !Flagged('#', fmt[from..from]) && !Flagged('-', fmt[from..from])
  {}

  lemma NoFlagHere(fmt: string, i: nat)
    requires i <= |fmt| && !IsFlag(CharAt(fmt, i))
    ensures FlagRun(fmt[i..]) == 0
  {}

  method ReadFlags(fmt: string, from: nat) returns (alternate: bool, left: bool, i: nat)
    requires from <= |fmt|
    ensures i == from + FlagRun(fmt[from..])
    ensures i <= |fmt| && alternate == Flagged('#', fmt[from..i]) && left == Flagged('-', fmt[from..i])
  {
    alternate, left, i := false, false, from;
    hide Flagged, FlagRun;
    NoFlagsYet(fmt, from);
    while CharAt(fmt, i) == '#' || CharAt(fmt, i) == '-'
      invariant from <= i <= |fmt| && i - from + FlagRun(fmt[i..]) == FlagRun(fmt[from..])
      invariant alternate == Flagged('#', fmt[from..i]) && left == Flagged('-', fmt[from..i])
      decreases |fmt| - i
    {
      FlagsGrow(fmt, from, i);
      if fmt[i] == '#' { alternate := true; } else { left := true; }
      i := i + 1;
    }
    NoFlagHere(fmt, i);
  }

  // A character or a tail of a tail.
  lemma TailOfTail(fmt: string, from: nat, i: nat)
    requires from + i <= |fmt|
    ensures fmt[from..][i..] == fmt[from + i..] && CharAt(fmt[from..], i) == CharAt(fmt, from + i)
  {}

  // A conversion's parts, by where they stand in the format.
  lemma ParseAt(fmt: string, from: nat)
    requires from <= |fmt|
    ensures var a := from + FlagRun(fmt[from..]);
            && a <= |fmt|
            && var b := a + DecimalRun(fmt[a..]);
            && b <= |fmt|
            && var dotted := CharAt(fmt, b) == '.';
               var e := if dotted then b + 1 + DecimalRun(fmt[b + 1..]) else b;
               Parse(fmt[from..])
               == Directive(Flagged('#', fmt[from..a]), Flagged('-', fmt[from..a]), NumberAt(fmt[a..]),
                            if dotted then NumberAt(fmt[b + 1..]) else 0, CharAt(fmt, e), e + 1 - from)
  {
    hide FlagRun, DecimalRun, NumberAt, Flagged;
    var flags := FlagRun(fmt[from..]);
    TailOfTail(fmt, from, flags);
    assert fmt[from..][..flags] == fmt[from..from + flags];
    var width := flags + DecimalRun(fmt[from + flags..]);
    TailOfTail(fmt, from, width);
    if CharAt(fmt, from + width) == '.' {
      TailOfTail(fmt, from, width + 1);
      TailOfTail(fmt, from, width + 1 + DecimalRun(fmt[from + width + 1..]));
    }
  }

  method ReadDirective(fmt: string, from: nat) returns (d: Directive)
    requires from <= |fmt|
    ensures d == Parse(fmt[from..])
  {
    hide NumberAt, FlagRun, DecimalRun, Parse, Flagged;
    ParseAt(fmt, from);
    var alternate, left, i := ReadFlags(fmt, from);
    var width, precision: nat := 0, 0;
    width, i := ReadDigits(fmt, i);
    if CharAt(fmt, i) == '.' {
      precision, i := ReadDigits(fmt, i + 1);
    }
    return Directive(alternate, left, width, precision, CharAt(fmt, i), i + 1 - from);
  }

  // ---------- What is left to print ----------

  // `printed` and what the rest of the format stands for make up the whole.
  ghost predicate Remaining(fmt: string, i: nat, args: seq<Arg>, printed: string, whole: string) {
    && i <= |fmt| && Complete(fmt[i..]) && Supplied(Pieces(fmt[i..]), args)
    && printed + Render(Pieces(fmt[i..]), args) == whole
  }

  lemma RemainingLiteral(fmt: string, i: nat, args: seq<Arg>, printed: string, whole: string)
    requires i < |fmt| && Remaining(fmt, i, args, printed, whole) && fmt[i] != '%'
    ensures Remaining(fmt, i + 1, args, printed + [fmt[i]], whole)
  {
    hide Parse, Converted, Printable;
    assert fmt[i..][1..] == fmt[i + 1..];
    var rest := Pieces(fmt[i + 1..]);
    assert Pieces(fmt[i..]) == [Literal(fmt[i])] + rest && ([Literal(fmt[i])] + rest)[1..] == rest;
  }

  lemma RemainingConversion(fmt: string, i: nat, args: seq<Arg>, printed: string, whole: string)
    requires i < |fmt| && Remaining(fmt, i, args, printed, whole) && fmt[i] == '%'
    ensures var d := Parse(fmt[i + 1..]);
            && (TakesArg(d.conversion) ==> args != []) && Printable(d.conversion, Argument(args))
            && Remaining(fmt, i + 1 + d.length, Later(d, args), printed + Converted(d, Argument(args)), whole)
  {
    hide Parse, Converted, Printable;
    var d := Parse(fmt[i + 1..]);
    assert fmt[i..][1..] == fmt[i + 1..];
    assert fmt[i..][1 + d.length..] == fmt[i + 1 + d.length..];
    var rest := Pieces(fmt[i + 1 + d.length..]);
    assert Pieces(fmt[i..]) == [Conversion(d)] + rest && ([Conversion(d)] + rest)[1..] == rest;
  }

  class Printer {
    var writeBuffer: string

    // The buffer's characters, the last one first.
    method Emit(buf: string)
      modifies this
      ensures writeBuffer == old(writeBuffer) + Reversed(buf)
    {
      var i: nat := |buf|;
      assert buf[..|buf|] == buf;
      while i > 0
        invariant i <= |buf|
        invariant writeBuffer + Reversed(buf[..i]) == old(writeBuffer) + Reversed(buf)
      {
        ReversedFrom(buf, i);
        i := i - 1;
        writeBuffer := writeBuffer + [buf[i]];
      }
    }

    method PrintfHex(num: nat, minDigits: nat)
      modifies this
      ensures writeBuffer == old(writeBuffer) + Hex(num, minDigits)
    {
      hide Digits;
      var pad := num < 0x10;
      var buf := DigitBuffer(num, 16);
      buf := Padded(buf, minDigits);
      if pad || |buf| % 2 == 1 { writeBuffer := writeBuffer + "0"; }
      Emit(buf);
    }

    method PrintfInt(num: int, base: nat, sign: bool, minDigits: nat)
      requires base == 10 || base == 16
      requires num >= 0 || sign
      modifies this
      ensures writeBuffer == old(writeBuffer) + Int(num, base, minDigits)
    {
      hide Digits;
      var negative, n := false, num;
      if sign && num < 0 { negative, n := true, -num; }
      var buf := DigitBuffer(n, base);
      buf := Padded(buf, minDigits);
      if negative {
        ReversedGrows(buf, '-');
        buf := buf + ['-'];
      }
      Emit(buf);
    }

    method Spaces(n: int)
      modifies this
      ensures writeBuffer == old(writeBuffer) + Repeat(' ', n)
    {
      var diff := n;
      while diff > 0
        invariant n <= 0 ==> diff == n
        invariant n > 0 ==> 0 <= diff
        invariant writeBuffer + Repeat(' ', diff) == old(writeBuffer) + Repeat(' ', n)
      {
        writeBuffer := writeBuffer + " ";
        diff := diff - 1;
      }
    }

    method CountDigits(number: nat, base: nat) returns (count: nat)
      requires base == 10 || base == 16
      ensures count == |Digits(number, base)|
    {
      Quotient(number, base);
      var tmp: nat := number / base;
      count := 1;
      while tmp != 0
        invariant count + (if tmp == 0 then 0 else |Digits(tmp, base)|) == |Digits(number, base)|
        decreases tmp
      {
        Quotient(tmp, base);
        count := count + 1;
        tmp := tmp / base;
      }
    }

    // The field's width less the digits, the sign or prefix, and the zeros a precision adds.
    method Fill(d: Directive, digits: nat, extra: nat)
      modifies this
      ensures writeBuffer == old(writeBuffer) + Filled(d, Max(digits, d.precision) + extra)
    {
      var diff := d.width - digits - extra;
      if d.precision - digits > 0 { diff := diff - (d.precision - digits); }
      if diff > 0 && d.left { Spaces(diff); }
    }

    method ConvertSigned(d: Directive, number: int)
      modifies this
      ensures writeBuffer == old(writeBuffer) + SignedText(d, number)
    {
      hide Digits, Int, Filled;
      var count := CountDigits(Abs(number), 10);
      PrintfInt(number, 10, true, d.precision);
      Fill(d, count, if number < 0 then 1 else 0);
    }

    method ConvertUnsigned(d: Directive, number: nat)
      modifies this
      ensures writeBuffer == old(writeBuffer) + UnsignedText(d, number)
    {
      hide Digits, Int, Filled;
      var count := CountDigits(number, 10);
      PrintfInt(number, 10, false, d.precision);
      Fill(d, count, 0);
    }

    method ConvertHex(d: Directive, number: nat)
      modifies this
      ensures writeBuffer == old(writeBuffer) + HexText(d, number)
    {
      hide Digits, Hex, Filled;
      var count := CountDigits(number, 16);
      if d.alternate { writeBuffer := writeBuffer + "0x"; }
      PrintfHex(number, d.precision);
      Fill(d, count, if d.alternate then 2 else 0);
    }

    method ConvertText(d: Directive, text: string)
      modifies this
      ensures writeBuffer == old(writeBuffer) + PaddedText(d, text)
    {
      var diff := d.width - |text|;
      if !d.left { Spaces(diff); }
      writeBuffer := writeBuffer + text;
      if d.left { Spaces(diff); }
    }

    method Convert(d: Directive, arg: Arg)
      requires Printable(d.conversion, arg)
      modifies this
      ensures writeBuffer == old(writeBuffer) + Converted(d, arg)
    {
      hide SignedText, UnsignedText, HexText, PaddedText;
      match d.conversion
      case 'd' => ConvertSigned(d, Signed(arg.word));
      case 'u' => ConvertUnsigned(d, arg.word);
      case 'x' => ConvertHex(d, arg.word);
      case 's' => ConvertText(d, arg.text);
      case 'c' => writeBuffer := writeBuffer + [(arg.word % 256) as char];
      case '%' => writeBuffer := writeBuffer + "%";
      case c => writeBuffer := writeBuffer + ['%', c];
    }

    method Printf(fmt: string, args: seq<Arg>, terminal: Terminal.Terminal)
      requires Complete(fmt) && Supplied(Pieces(fmt), args) && Terminal.Ends(Render(Pieces(fmt), args))
      modifies this, terminal
      ensures writeBuffer == Render(Pieces(fmt), args)
      ensures terminal.Value() == Terminal.Shown(old(terminal.Value()), Render(Pieces(fmt), args))
    {
      hide Complete, Supplied, Pieces, Render, Parse, Converted, Printable;
      ghost var whole := Render(Pieces(fmt), args);
      var inConversion, rest, i: nat := false, args, 0;
      writeBuffer := "";
      RemainingAtStart(fmt, args);
      while i < |fmt|
        invariant i <= |fmt| && terminal.Value() == old(terminal.Value())
        invariant !inConversion ==> Remaining(fmt, i, rest, writeBuffer, whole)
        invariant inConversion ==> 0 < i < |fmt| && fmt[i - 1] == '%' && Remaining(fmt, i - 1, rest, writeBuffer, whole)
        decreases |fmt| - i
      {
        if !inConversion {
          if fmt[i] == '%' {
            RemainingConversion(fmt, i, rest, writeBuffer, whole);
            inConversion := true;
          } else {
            RemainingLiteral(fmt, i, rest, writeBuffer, whole);
            writeBuffer := writeBuffer + [fmt[i]];
          }
          i := i + 1;
        } else {
          var d := ReadDirective(fmt, i);
          RemainingConversion(fmt, i - 1, rest, writeBuffer, whole);
          Convert(d, Argument(rest));
          rest := Later(d, rest);
          i := i + d.length;
          inConversion := false;
        }
      }
      RemainingAtEnd(fmt, rest, writeBuffer, whole);
      var written := terminal.Write(writeBuffer);
    }
  }

  lemma RemainingAtStart(fmt: string, args: seq<Arg>)
    requires Complete(fmt) && Supplied(Pieces(fmt), args)
    ensures Remaining(fmt, 0, args, "", Render(Pieces(fmt), args))
  {
    hide Complete, Supplied, Pieces, Render;
    assert fmt[0..] == fmt;
  }

  lemma RemainingAtEnd(fmt: string, args: seq<Arg>, printed: string, whole: string)
    requires Remaining(fmt, |fmt|, args, printed, whole)
    ensures printed == whole
  {
    assert fmt[|fmt|..] == "";
  }
}
