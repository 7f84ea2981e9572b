/** printf: the text a format string and its arguments stand for, and the printer that builds it. */
module Formatting {
  datatype Arg = Word(word: nat) | Text(text: string)

  const TWO_TO_31: nat := 0x8000_0000

  // ---------- Numbers ----------

  function Digit(d: nat): char
    requires d < 16
  {
    "0123456789ABCDEF"[d]
  }

  // A number's digits, the most significant first, with at least one.
  function Digits(n: nat, base: nat): (r: string)
    requires base == 10 || base == 16
    ensures |r| > 0
    decreases n
  {
    (if n / base == 0 then "" else Digits(n / base, base)) + [Digit(n % base)]
  }

  function Repeat(c: char, n: int): (r: string)
    ensures |r| == if n < 0 then 0 else n
    ensures forall i :: 0 <= i < |r| ==> r[i] == c
    decreases n
  {
    if n <= 0 then "" else [c] + Repeat(c, n - 1)
  }

  function AtLeast(s: string, digits: nat): string {
    Repeat('0', digits - |s|) + s
  }

  // printf_hex: single-digit numbers and odd digit counts get one more zero.
  function Hex(n: nat, minDigits: nat): string {
    var s := AtLeast(Digits(n, 16), minDigits);
    if n < 0x10 || |s| % 2 == 1 then "0" + s else s
  }

  // printf_int, on the numbers it has digits for.
  function Int(n: int, base: nat, minDigits: nat): string
    requires base == 10 || base == 16
  {
    if n < 0 then "-" + AtLeast(Digits(-n, base), minDigits) else AtLeast(Digits(n, base), minDigits)
  }

  // The value of a run of digits.
  function DigitValue(c: char): int {
    if 'A' <= c <= 'F' then c as int - 'A' as int + 10 else c as int - '0' as int
  }

  function Value(s: string, base: nat): int {
    if s == "" then 0 else Value(s[..|s| - 1], base) * base + DigitValue(s[|s| - 1])
  }

  predicate IsDigits(s: string) {
    forall i :: 0 <= i < |s| ==> '0' <= s[i] <= '9' || 'A' <= s[i] <= 'F'
  }

  lemma ValueOfOneMore(s: string, c: char, base: nat)
    ensures Value(s + [c], base) == Value(s, base) * base + DigitValue(c)
  {
    assert (s + [c])[..|s|] == s;
  }

  lemma DigitIsDigit(d: nat)
    requires d < 16
    ensures DigitValue(Digit(d)) == d && IsDigits([Digit(d)])
  {}

  lemma Quotient(n: nat, base: nat)
    requires base == 10 || base == 16
    ensures n % base < base && n == n / base * base + n % base && (n / base < n || n == 0)
  {
    if base == 10 { assert n == n / 10 * 10 + n % 10; } else { assert n == n / 16 * 16 + n % 16; }
  }

  /** Printing a number's digits and reading them back gives the number. */
  lemma {:induction false} DigitsReadBack(n: nat, base: nat)
    requires base == 10 || base == 16
    ensures Value(Digits(n, base), base) == n && IsDigits(Digits(n, base))
    decreases n
  {
    hide Value, Digit, DigitValue;
    Quotient(n, base);
    var q, last := n / base, [Digit(n % base)];
    DigitIsDigit(n % base);
    ValueOfNone(base);
    if q == 0 {
      ValueOfOneMore("", Digit(n % base), base);
      assert "" + last == last;
    } else {
      DigitsReadBack(q, base);
      ValueOfOneMore(Digits(q, base), Digit(n % base), base);
    }
  }

  lemma ValueOfNone(base: nat)
    ensures Value("", base) == 0
  {}

  lemma {:induction false} ZerosAddNothing(k: int, s: string, base: nat)
    ensures Value(Repeat('0', k) + s, base) == Value(s, base)
    decreases |s|, if k < 0 then 0 else k
  {
    var t := Repeat('0', k) + s;
    if s == "" {
      if k > 0 {
        assert t[..|t| - 1] == Repeat('0', k - 1) + "";
        ZerosAddNothing(k - 1, "", base);
      }
    } else {
      assert t[..|t| - 1] == Repeat('0', k) + s[..|s| - 1];
      ZerosAddNothing(k, s[..|s| - 1], base);
    }
  }

  /** Whatever padding it is given, a hexadecimal number reads back as itself. */
  lemma HexReadsBack(n: nat, minDigits: nat)
    ensures Value(Hex(n, minDigits), 16) == n && IsDigits(Hex(n, minDigits))
  {
    hide Value, Digits;
    var d := Digits(n, 16);
    var s := AtLeast(d, minDigits);
    DigitsReadBack(n, 16);
    ZerosAddNothing(minDigits - |d|, d, 16);
    ZerosAddNothing(1, s, 16);
    assert Repeat('0', 1) == "0";
  }

  lemma IntReadsBack(n: nat, base: nat, minDigits: nat)
    requires base == 10 || base == 16
    ensures Value(Int(n, base, minDigits), base) == n && IsDigits(Int(n, base, minDigits))
  {
    hide Value, Digits;
    DigitsReadBack(n, base);
    ZerosAddNothing(minDigits - |Digits(n, base)|, Digits(n, base), base);
  }

  /** Hexadecimal comes out in whole bytes, two digits each, except for a number below 16 that is
      already padded to an even number of digits: it gets one more zero all the same. */
  lemma HexIsEvenIff(n: nat, minDigits: nat)
    ensures |Hex(n, minDigits)| % 2 == 0 <==> !(n < 0x10 && minDigits >= 2 && minDigits % 2 == 0)
  {
    if n < 0x10 { assert Digits(n, 16) == [Digit(n)]; }
  }

  // ---------- Conversions ----------

  predicate IsDecimal(c: char) {
    '0' <= c <= '9'
  }

  predicate IsFlag(c: char) {
    c == '#' || c == '-'
  }

  // How many characters from the start satisfy the test.
  function FlagRun(s: string): (k: nat)
    ensures k <= |s| && (k < |s| ==> !IsFlag(s[k]))
  {
    if s == "" || !IsFlag(s[0]) then 0 else 1 + FlagRun(s[1..])
  }

  function DecimalRun(s: string): (k: nat)
    ensures k <= |s| && (k < |s| ==> !IsDecimal(s[k]))
    ensures forall i :: 0 <= i < k ==> IsDecimal(s[i])
  {
    if s == "" || !IsDecimal(s[0]) then 0 else 1 + DecimalRun(s[1..])
  }

  // A conversion: what follows the percent sign, `length` characters of it.
  datatype Directive = Directive(
    alternate: bool, left: bool, width: nat, precision: nat, conversion: char, length: nat)

  function NumberAt(s: string): (r: nat) {
    var v := Value(s[..DecimalRun(s)], 10);
    if v < 0 then 0 else v
  }

  const NUL: char := '\0'

  function CharAt(s: string, i: nat): char {
    if i < |s| then s[i] else NUL
  }

  predicate Flagged(c: char, flags: string) {
    c in flags
  }

  function Parse(s: string): (r: Directive)
    ensures r.length >= 1
  {
    var flags := FlagRun(s);
    var width := flags + DecimalRun(s[flags..]);
    var dotted := CharAt(s, width) == '.';
    var end := if dotted then width + 1 + DecimalRun(s[width + 1..]) else width;
    Directive(Flagged('#', s[..flags]), Flagged('-', s[..flags]), NumberAt(s[flags..]),
              if dotted then NumberAt(s[width + 1..]) else 0, CharAt(s, end), end + 1)
  }

  // The spaces that follow a left-adjusted conversion.
  function Filled(d: Directive, printed: int): string {
    if d.left then Repeat(' ', d.width - printed) else ""
  }

  function Max(a: int, b: int): int {
    if a < b then b else a
  }

  function Signed(word: nat): int {
    if word < TWO_TO_31 then word else word - 2 * TWO_TO_31
  }

  predicate TakesArg(c: char) {
    c in "duxsc"
  }

  // The arguments the conversions can print: printf_int has no digits for an unsigned number from
  // 2^31 up, nor for the least signed one.
  predicate Printable(c: char, arg: Arg) {
    match c
    case 'd' => arg.Word? && arg.word < 2 * TWO_TO_31 && arg.word != TWO_TO_31
    case 'u' => arg.Word? && arg.word < TWO_TO_31
    case 'x' => arg.Word? && arg.word < 2 * TWO_TO_31
    case 's' => arg.Text?
    case 'c' => arg.Word?
    case _ => true
  }

  function Abs(n: int): nat {
    if n < 0 then -n else n
  }

  function SignedText(d: Directive, n: int): string {
    Int(n, 10, d.precision) + Filled(d, Max(|Digits(Abs(n), 10)|, d.precision) + if n < 0 then 1 else 0)
  }

  function UnsignedText(d: Directive, n: nat): string {
    Int(n, 10, d.precision) + Filled(d, Max(|Digits(n, 10)|, d.precision))
  }

  function HexText(d: Directive, n: nat): string {
    (if d.alternate then "0x" else "") + Hex(n, d.precision)
    + Filled(d, Max(|Digits(n, 16)|, d.precision) + if d.alternate then 2 else 0)
  }

  function PaddedText(d: Directive, text: string): string {
    (if d.left then "" else Repeat(' ', d.width - |text|)) + text + Filled(d, |text|)
  }

  function Converted(d: Directive, arg: Arg): string
    requires Printable(d.conversion, arg)
  {
    match d.conversion
    case 'd' => SignedText(d, Signed(arg.word))
    case 'u' => UnsignedText(d, arg.word)
    case 'x' => HexText(d, arg.word)
    case 's' => PaddedText(d, arg.text)
    case 'c' => [(arg.word % 256) as char]
    case '%' => "%"
    case c => ['%', c]
  }

  lemma IntLength(n: int, minDigits: nat)
    ensures |Int(n, 10, minDigits)| == Max(|Digits(Abs(n), 10)|, minDigits) + if n < 0 then 1 else 0
  {
    hide Digits;
  }

  // A single-digit number, and an odd digit count, get one more zero.
  lemma HexLength(n: nat, minDigits: nat)
    ensures var digits := Max(|Digits(n, 16)|, minDigits);
            |Hex(n, minDigits)| == digits + if n < 0x10 || digits % 2 == 1 then 1 else 0
  {
    hide Digits;
  }

  /** Left-adjusted decimal conversions fill their field exactly, and are never cut short. */
  lemma LeftAdjustedFillsField(d: Directive, arg: Arg)
    requires Printable(d.conversion, arg) && d.left && d.conversion in "dus"
    ensures |Converted(d, arg)| >= d.width
    ensures |Converted(d, arg)| == d.width || |Converted(d, arg)| == |Converted(d.(width := 0), arg)|
  {
    hide Digits, Int;
    match d.conversion
    case 'd' => IntLength(Signed(arg.word), d.precision);
    case 'u' => IntLength(arg.word, d.precision);
    case _ =>
  }

  /** A hexadecimal conversion fills its field exactly unless a padding zero, which the field does
      not account for, was added; then it runs over by one. */
  lemma LeftAdjustedHexOverrunsIff(d: Directive, arg: Arg)
    requires d.conversion == 'x' && Printable('x', arg) && d.left
    requires d.width >= Max(|Digits(arg.word, 16)|, d.precision) + if d.alternate then 2 else 0
    ensures |Converted(d, arg)|
            == d.width + if arg.word < 0x10 || Max(|Digits(arg.word, 16)|, d.precision) % 2 == 1 then 1 else 0
  {
    hide Digits, Hex;
    HexLength(arg.word, d.precision);
    assert Converted(d, arg) == HexText(d, arg.word);
  }

  // ---------- Whole format strings ----------

  datatype Piece = Literal(c: char) | Conversion(d: Directive)

  // Every percent sign starts a complete conversion.
  predicate Complete(fmt: string)
    decreases |fmt|
  {
    if fmt == "" then true
    else if fmt[0] != '%' then Complete(fmt[1..])
    else Parse(fmt[1..]).length < |fmt| && Complete(fmt[1 + Parse(fmt[1..]).length..])
  }

  function Pieces(fmt: string): seq<Piece>
    requires Complete(fmt)
    decreases |fmt|
  {
    if fmt == "" then []
    else if fmt[0] != '%' then [Literal(fmt[0])] + Pieces(fmt[1..])
    else
      var d := Parse(fmt[1..]);
      [Conversion(d)] + Pieces(fmt[1 + d.length..])
  }

  // The next argument, or any value where there is none to take.
  function Argument(args: seq<Arg>): Arg {
    if args == [] then Word(0) else args[0]
  }

  function Later(d: Directive, args: seq<Arg>): seq<Arg> {
    if TakesArg(d.conversion) && args != [] then args[1..] else args
  }

  // Each conversion has the argument it takes.
  predicate Supplied(pieces: seq<Piece>, args: seq<Arg>)
    decreases pieces
  {
    if pieces == [] then true
    else
      match pieces[0]
      case Literal(_) => Supplied(pieces[1..], args)
      case Conversion(d) =>
        && (TakesArg(d.conversion) ==> args != []) && Printable(d.conversion, Argument(args))
        && Supplied(pieces[1..], Later(d, args))
  }

  function Render(pieces: seq<Piece>, args: seq<Arg>): string
    requires Supplied(pieces, args)
    decreases pieces
  {
    if pieces == [] then ""
    else
      match pieces[0]
      case Literal(c) => [c] + Render(pieces[1..], args)
      case Conversion(d) => Converted(d, Argument(args)) + Render(pieces[1..], Later(d, args))
  }

  function Literals(text: string): (r: seq<Piece>)
    ensures |r| == |text| && forall i :: 0 <= i < |text| ==> r[i] == Literal(text[i])
  {
    if text == "" then [] else [Literal(text[0])] + Literals(text[1..])
  }

  // Plain text comes apart into its characters.
  lemma {:induction false} PiecesOfText(text: string, fmt: string)
    requires '%' !in text && Complete(fmt)
    ensures Complete(text + fmt) && Pieces(text + fmt) == Literals(text) + Pieces(fmt)
    decreases text
  {
    if text == "" {
      assert text + fmt == fmt;
    } else {
      hide Parse;
      assert (text + fmt)[1..] == text[1..] + fmt;
      PiecesOfText(text[1..], fmt);
    }
  }

  // A conversion with no width or precision.
  function Plain(alternate: bool, conversion: char): Directive {
    Directive(alternate, false, 0, 0, conversion, if alternate then 2 else 1)
  }

  lemma PiecesOfConversion(alternate: bool, conversion: char, fmt: string)
    requires conversion in "duxsc" && Complete(fmt)
    ensures var spec := (if alternate then "%#" else "%") + [conversion];
            Complete(spec + fmt) && Pieces(spec + fmt) == [Conversion(Plain(alternate, conversion))] + Pieces(fmt)
  {
    hide Parse;
    var spec := (if alternate then "%#" else "%") + [conversion];
    ParsePlain(alternate, conversion, fmt);
    assert (spec + fmt)[1..] == (if alternate then "#" else "") + [conversion] + fmt;
    assert (spec + fmt)[1 + Plain(alternate, conversion).length..] == fmt;
  }

  lemma ParsePlain(alternate: bool, conversion: char, rest: string)
    requires conversion in "duxsc"
    ensures Parse((if alternate then "#" else "") + [conversion] + rest) == Plain(alternate, conversion)
  {
    var s := (if alternate then "#" else "") + [conversion] + rest;
    var k := if alternate then 1 else 0;
    assert s[k..] == [conversion] + rest;
    assert FlagRun(s[k..]) == 0;
    assert FlagRun(s) == k;
    assert DecimalRun(s[k..]) == 0;
    assert s[..k] == if alternate then "#" else "";
    assert s[k..][0..] == s[k..];
    assert s[k..][..0] == "";
  }

  lemma {:induction false} RenderLiterals(text: string, pieces: seq<Piece>, args: seq<Arg>)
    requires Supplied(pieces, args)
    ensures Supplied(Literals(text) + pieces, args)
    ensures Render(Literals(text) + pieces, args) == text + Render(pieces, args)
    decreases text
  {
    hide Converted, Printable, TakesArg;
    if text == "" {
      assert Literals(text) + pieces == pieces;
    } else {
      assert (Literals(text) + pieces)[1..] == Literals(text[1..]) + pieces;
      RenderLiterals(text[1..], pieces, args);
    }
  }

  lemma RenderConversion(d: Directive, pieces: seq<Piece>, arg: Arg, args: seq<Arg>)
    requires TakesArg(d.conversion) && Printable(d.conversion, arg) && Supplied(pieces, args)
    ensures Supplied([Conversion(d)] + pieces, [arg] + args)
    ensures Render([Conversion(d)] + pieces, [arg] + args) == Converted(d, arg) + Render(pieces, args)
  {
    hide Converted;
    assert ([Conversion(d)] + pieces)[1..] == pieces;
    assert Later(d, [arg] + args) == args;
  }
}
