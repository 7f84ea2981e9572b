/** What a printf conversion is read as, whatever flags, width and precision it has, and what it
    prints, told by reading the printed text back. */
module FormatRoundTrips {
  import opened Words
  import opened Formatting
  import opened EscapeRoundTrips

  // ---------- Reading a conversion ----------

  predicate AllDecimal(s: string) {
    forall i :: 0 <= i < |s| ==> IsDecimal(s[i])
  }

  predicate AllFlags(s: string) {
    forall i :: 0 <= i < |s| ==> IsFlag(s[i])
  }

  // A character that ends flags, width and precision.
  predicate IsConversion(c: char) {
    !IsFlag(c) && !IsDecimal(c) && c != '.'
  }

  lemma {:induction false} FlagRunOf(flags: string, rest: string)
    requires AllFlags(flags) && rest != "" && !IsFlag(rest[0])
    ensures FlagRun(flags + rest) == |flags|
    decreases |flags|
  {
    if flags == "" {
      assert flags + rest == rest;
    } else {
      assert (flags + rest)[1..] == flags[1..] + rest;
      FlagRunOf(flags[1..], rest);
    }
  }

  lemma {:induction false} DecimalRunOf(digits: string, rest: string)
    requires AllDecimal(digits) && rest != "" && !IsDecimal(rest[0])
    ensures DecimalRun(digits + rest) == |digits|
    decreases |digits|
  {
    if digits == "" {
      assert digits + rest == rest;
    } else {
      assert (digits + rest)[1..] == digits[1..] + rest;
      DecimalRunOf(digits[1..], rest);
    }
  }

  lemma NumberIsValue(digits: string, rest: string)
    requires AllDecimal(digits) && rest != "" && !IsDecimal(rest[0])
    ensures Value(digits, 10) >= 0 && NumberAt(digits + rest) == Value(digits, 10)
  {
    DecimalRunOf(digits, rest);
    assert (digits + rest)[..|digits|] == digits;
    ValueIsNonNegative(digits, 10);
  }

  /** Flags in any order and number, then a width, then a point and a precision or neither, then the
      conversion: that is how it is read, whatever comes after. */
  lemma ConversionIsRead(flags: string, width: string, dotted: bool, precision: string, c: char, rest: string)
    requires AllFlags(flags) && AllDecimal(width) && AllDecimal(precision) && IsConversion(c)
    ensures Value(width, 10) >= 0 && Value(precision, 10) >= 0
    ensures var point := if dotted then "." + precision else "";
            Parse(flags + width + point + [c] + rest)
            == Directive('#' in flags, '-' in flags, Value(width, 10), if dotted then Value(precision, 10) else 0, c,
                         |flags| + |width| + |point| + 1)
  {
    hide Value, NumberAt, FlagRun, DecimalRun;
    var last := [c] + rest;
    var point := if dotted then "." + precision else "";
    var s := flags + width + point + [c] + rest;
    assert s == flags + (width + (point + last));
    assert last[0] == c;
    NumberIsValue(precision, last);
    DecimalRunOf(precision, last);
    NumberIsValue(width, point + last);
    DecimalRunOf(width, point + last);
    FlagRunOf(flags, width + (point + last));
    assert s[|flags|..] == width + (point + last) && s[..|flags|] == flags;
    PointIsRead(s, |flags| + |width|, dotted, precision, last);
  }

  lemma PointIsRead(s: string, w: nat, dotted: bool, precision: string, last: string)
    requires w <= |s| && s[w..] == (if dotted then "." + precision else "") + last
    requires last != "" && IsConversion(last[0])
    ensures CharAt(s, w) == '.' <==> dotted
    ensures dotted ==> w + 1 <= |s| && s[w + 1..] == precision + last && CharAt(s, w + 1 + |precision|) == last[0]
    ensures !dotted ==> CharAt(s, w) == last[0]
  {
    assert w < |s| && s[w] == s[w..][0];
    if dotted {
      assert s[w + 1..] == s[w..][1..] == precision + last;
      assert s[w + 1 + |precision|] == s[w + 1..][|precision|];
    }
  }

  // ---------- What is printed for a number ----------

  // A number's own digits, without a leading zero unless it is zero.
  lemma {:induction false} NoLeadingZero(n: nat, base: nat)
    requires base == 10 || base == 16
    ensures n > 0 ==> Digits(n, base)[0] != '0'
    ensures n == 0 ==> Digits(n, base) == "0"
    decreases n
  {
    Quotient(n, base);
    if n / base > 0 { NoLeadingZero(n / base, base); }
  }

  /** A decimal number, negative or not, reads back as itself: a minus sign exactly when it is
      negative, and then its digits, at least as many as asked for. */
  lemma SignedReadsBack(n: int, minDigits: nat)
    ensures var text := Int(n, 10, minDigits);
            var sign: nat := if n < 0 then 1 else 0;
            && |text| >= sign + minDigits && (text[..sign] == if n < 0 then "-" else "")
            && AllDecimal(text[sign..]) && Value(text[sign..], 10) == Abs(n)
  {
    hide Value, Digits;
    IntReadsBack(Abs(n), 10, minDigits);
    IntLength(Abs(n), minDigits);
    IntIsAllDecimal(Abs(n), minDigits);
    var text := Int(n, 10, minDigits);
    assert n < 0 ==> text[1..] == Int(Abs(n), 10, minDigits);
    assert n >= 0 ==> text[0..] == Int(Abs(n), 10, minDigits);
  }

  lemma IntIsAllDecimal(n: nat, minDigits: nat)
    ensures AllDecimal(Int(n, 10, minDigits))
  {
    hide Digits;
    DecimalsOnly(n);
  }

  // A 32-bit word read as signed: the number in range that is the same modulo 2^32.
  lemma SignedIsCongruent(word: nat)
    requires word < TWO_TO_32
    ensures -0x8000_0000 <= Signed(word) < 0x8000_0000 && U32(Signed(word)) == word
  {}

  // ---------- Fields ----------

  predicate AllSpaces(s: string) {
    forall i :: 0 <= i < |s| ==> s[i] == ' '
  }

  // What is printed with no field to fill.
  function Bare(d: Directive): Directive {
    d.(width := 0, left := false)
  }

  /** A string fills its field with spaces before it, or after it when adjusted to the left, and is
      never cut short. */
  lemma TextFillsField(d: Directive, text: string)
    requires d.conversion == 's'
    ensures var printed := Converted(d, Text(text));
            && |printed| == Max(d.width, |text|)
            && (d.left ==> printed[..|text|] == text && AllSpaces(printed[|text|..]))
            && (!d.left ==> printed[|printed| - |text|..] == text && AllSpaces(printed[..|printed| - |text|]))
  {}

  /** A number is followed by nothing but spaces, and only when adjusted to the left: without the
      flag its width is ignored. */
  lemma NumberFillsField(d: Directive, arg: Arg)
    requires d.conversion in "dux" && Printable(d.conversion, arg)
    ensures var printed, bare := Converted(d, arg), Converted(Bare(d), arg);
            && |bare| <= |printed| && printed[..|bare|] == bare && AllSpaces(printed[|bare|..])
            && (!d.left ==> printed == bare)
  {
    hide Digits, Int, Hex;
    var bare := Converted(Bare(d), arg);
    match d.conversion
    case 'd' => PrefixOfConcat(bare, Filled(d, Max(|Digits(Abs(Signed(arg.word)), 10)|, d.precision) + if Signed(arg.word) < 0 then 1 else 0));
    case 'u' => PrefixOfConcat(bare, Filled(d, Max(|Digits(arg.word, 10)|, d.precision)));
    case _ => PrefixOfConcat(bare, Filled(d, Max(|Digits(arg.word, 16)|, d.precision) + if d.alternate then 2 else 0));
  }

  lemma PrefixOfConcat(s: string, t: string)
    ensures (s + t)[..|s|] == s && (s + t)[|s|..] == t
  {}

  // Without a field: the signed number, the number, its hexadecimal digits after a prefix or none.
  lemma BareNumbers(d: Directive, word: nat)
    requires d.conversion in "dux" && Printable(d.conversion, Word(word))
    ensures Converted(Bare(d), Word(word))
            == if d.conversion == 'd' then Int(Signed(word), 10, d.precision)
               else if d.conversion == 'u' then Int(word, 10, d.precision)
               else if d.alternate then "0x" + Hex(word, d.precision) else Hex(word, d.precision)
  {
    hide Digits, Int, Hex;
  }

  // ---------- Single characters ----------

  /** A character prints as itself, two percent signs as one, taking no argument, and an unknown
      conversion as it was written, taking none either. */
  lemma PrintsCharacter(c: char, fmt: string, args: seq<Arg>, text: string)
    requires c as int < 256 && Prints(fmt, args, text)
    ensures Prints("%c" + fmt, [Word(c as int)] + args, [c] + text)
  {
    hide Complete, Pieces, Supplied, Render;
    PiecesOfConversion(false, 'c', fmt);
    assert "%c" == "%" + ['c'];
    RenderConversion(Plain(false, 'c'), Pieces(fmt), Word(c as int), args);
  }

  lemma PrintsUnknown(c: char, fmt: string, args: seq<Arg>, text: string)
    requires IsConversion(c) && !TakesArg(c) && Prints(fmt, args, text)
    ensures Prints("%" + [c] + fmt, args, (if c == '%' then "%" else "%" + [c]) + text)
  {
    hide Complete, Pieces, Supplied, Render, Parse;
    var whole, d := "%" + [c] + fmt, Plain(false, c);
    ConversionIsRead("", "", false, "", c, fmt);
    assert "" + "" + "" + [c] + fmt == [c] + fmt;
    ValueOfNone(10);
    assert whole[1..] == [c] + fmt && whole[1 + d.length..] == fmt;
    ConversionComesFirst(whole, d, fmt);
    RenderUnknown(d, Pieces(fmt), args);
  }

  lemma ConversionComesFirst(whole: string, d: Directive, fmt: string)
    requires whole != "" && whole[0] == '%' && Parse(whole[1..]) == d
    requires d.length < |whole| && whole[1 + d.length..] == fmt && Complete(fmt)
    ensures Complete(whole) && Pieces(whole) == [Conversion(d)] + Pieces(fmt)
  {
    hide Parse;
  }

  lemma RenderUnknown(d: Directive, pieces: seq<Piece>, args: seq<Arg>)
    requires !TakesArg(d.conversion) && Supplied(pieces, args)
    ensures Supplied([Conversion(d)] + pieces, args)
    ensures Render([Conversion(d)] + pieces, args)
            == (if d.conversion == '%' then "%" else "%" + [d.conversion]) + Render(pieces, args)
  {
    assert ([Conversion(d)] + pieces)[1..] == pieces;
  }
}
