/** What printf prints for the escape sequences and what the terminal reads back from it. */
module EscapeRoundTrips {
  import opened Words
  import opened Formatting
  import opened Terminal

  // ---------- Values ----------

  lemma {:induction false} ValueIsNonNegative(s: string, base: nat)
    requires IsDigits(s)
    ensures Value(s, base) >= 0
  {
    if s != "" {
      ValueIsNonNegative(s[..|s| - 1], base);
      assert Value(s[..|s| - 1], base) * base >= 0;
    }
  }

  lemma {:induction false} PrefixIsNoMore(s: string, k: nat)
    requires IsDigits(s) && k <= |s|
    ensures 0 <= Value(s[..k], 16) <= Value(s, 16)
  {
    ValueIsNonNegative(s[..k], 16);
    if k < |s| {
      PrefixIsNoMore(s[..|s| - 1], k);
      assert s[..|s| - 1][..k] == s[..k];
    } else {
      assert s[..k] == s;
    }
  }

  // Cutting a number short at one of its B digits leaves less.
  lemma CutShortIsLess(s: string, k: nat)
    requires IsDigits(s) && k < |s| && s[k] == 'B'
    ensures 0 <= Value(s[..k], 16) < Value(s, 16)
  {
    PrefixIsNoMore(s, k + 1);
    PrefixIsNoMore(s, k);
    assert s[..k + 1][..k] == s[..k];
  }

  lemma {:induction false} AccumulateOneMore(acc: nat, base: nat, letters: bool, s: string, c: char)
    ensures Accumulate(acc, base, letters, s + [c]) == Taken(Accumulate(acc, base, letters, s), base, letters, c)
    decreases |s|
  {
    hide Taken;
    if s == "" {
      assert ("" + [c])[1..] == "";
    } else {
      assert (s + [c])[1..] == s[1..] + [c];
      AccumulateOneMore(Taken(acc, base, letters, s[0]), base, letters, s[1..], c);
    }
  }

  // The parser's 32-bit running value is the number, when the number fits.
  lemma {:induction false} AccumulateIsValue(base: nat, letters: bool, s: string)
    requires base == 10 || base == 16
    requires IsDigits(s) && (letters || forall i :: 0 <= i < |s| ==> IsDecimal(s[i]))
    requires Value(s, base) < TWO_TO_32
    ensures Accumulate(0, base, letters, s) == Value(s, base)
    decreases |s|
  {
    hide Value;
    ValueOfNone(base);
    if s != "" {
      var rest, c := s[..|s| - 1], s[|s| - 1];
      assert s == rest + [c];
      ValueIsNonNegative(rest, base);
      ValueOfOneMore(rest, c, base);
      assert 0 <= DigitValue(c);
      AccumulateIsValue(base, letters, rest);
      AccumulateOneMore(0, base, letters, rest, c);
    }
  }

  lemma {:induction false} DecimalsOnly(n: nat)
    ensures forall i :: 0 <= i < |Digits(n, 10)| ==> IsDecimal(Digits(n, 10)[i])
    decreases n
  {
    if n / 10 != 0 { DecimalsOnly(n / 10); }
  }

  // ---------- Where numbers end ----------

  lemma {:induction false} UntilStop(s: string, stop: char, rest: string)
    requires stop !in s
    ensures Until(s + [stop] + rest, stop) == |s|
  {
    if s != "" {
      assert (s + [stop] + rest)[1..] == s[1..] + [stop] + rest;
      UntilStop(s[1..], stop, rest);
    }
  }

  lemma ColourEndsAtStop(s: string)
    requires ';' !in s
    ensures ColourEnd(s + ";", ';') == |s|
  {
    var t := s + ";";
    if Prefixed(t) {
      assert t[0] == s[0] && t[1] == s[1];
      assert t[2..] == s[2..] + ";" + "";
      UntilStop(s[2..], ';', "");
    } else {
      assert t == s + ";" + "";
      UntilStop(s, ';', "");
    }
  }

  lemma ColourOfPrefixed(s: string)
    requires IsDigits(s) && Value(s, 16) < TWO_TO_32
    ensures Colour("0x" + s) == Value(s, 16)
  {
    assert ("0x" + s)[2..] == s;
    AccumulateIsValue(16, true, s);
  }

  lemma ColourOfDecimal(s: string)
    requires (forall i :: 0 <= i < |s| ==> IsDecimal(s[i])) && Value(s, 10) < TWO_TO_32
    ensures Colour(s) == Value(s, 10)
  {
    AccumulateIsValue(10, true, s);
  }

  // ---------- Cursor moves ----------

  const MOVE_FORMAT: string := "\U{1B}X%uY%u;"

  // printf prints the text for the format and the arguments.
  ghost predicate Prints(fmt: string, args: seq<Arg>, text: string) {
    Complete(fmt) && Supplied(Pieces(fmt), args) && Render(Pieces(fmt), args) == text
  }

  lemma PrintsNothing()
    ensures Prints("", [], "")
  {}

  lemma PrintsText(s: string, fmt: string, args: seq<Arg>, text: string)
    requires '%' !in s && Prints(fmt, args, text)
    ensures Prints(s + fmt, args, s + text)
  {
    hide Complete, Pieces, Supplied, Render;
    PiecesOfText(s, fmt);
    RenderLiterals(s, Pieces(fmt), args);
  }

  lemma PrintsConversion(alternate: bool, conversion: char, fmt: string, n: nat, args: seq<Arg>, text: string)
    requires (conversion == 'u' && n < TWO_TO_31 && !alternate) || (conversion == 'x' && n < TWO_TO_32)
    requires Prints(fmt, args, text)
    ensures Prints((if alternate then "%#" else "%") + [conversion] + fmt, [Word(n)] + args,
                   (if conversion == 'u' then Int(n, 10, 0) else (if alternate then "0x" else "") + Hex(n, 0)) + text)
  {
    hide Complete, Pieces, Supplied, Render, Converted;
    PiecesOfConversion(alternate, conversion, fmt);
    ConvertedPlain(alternate, conversion, n);
    RenderConversion(Plain(alternate, conversion), Pieces(fmt), Word(n), args);
  }

  // What a conversion without flags, width or precision prints.
  lemma ConvertedPlain(alternate: bool, conversion: char, n: nat)
    requires (conversion == 'u' && n < TWO_TO_31 && !alternate) || (conversion == 'x' && n < TWO_TO_32)
    ensures Printable(conversion, Word(n))
    ensures Converted(Plain(alternate, conversion), Word(n))
            == if conversion == 'u' then Int(n, 10, 0) else (if alternate then "0x" else "") + Hex(n, 0)
  {
    hide Int, Hex, Digits;
  }

  lemma MoveIsPrinted(x: nat, y: nat)
    requires x < TWO_TO_31 && y < TWO_TO_31
    ensures Prints(MOVE_FORMAT, [Word(x), Word(y)], [ESC] + "X" + Int(x, 10, 0) + "Y" + Int(y, 10, 0) + ";")
  {
    hide Prints, Int;
    var ix, iy := Int(x, 10, 0), Int(y, 10, 0);
    PrintsNothing();
    PrintsText(";", "", [], "");
    PrintsConversion(false, 'u', ";" + "", y, [], ";" + "");
    PrintsText("Y", "%" + ['u'] + (";" + ""), [Word(y)] + [], iy + (";" + ""));
    PrintsConversion(false, 'u', "Y" + ("%" + ['u'] + (";" + "")), x, [Word(y)] + [], "Y" + (iy + (";" + "")));
    PrintsText([ESC] + "X", "%" + ['u'] + ("Y" + ("%" + ['u'] + (";" + ""))), [Word(x)] + ([Word(y)] + []),
               ix + ("Y" + (iy + (";" + ""))));
    assert MOVE_FORMAT == [ESC] + "X" + ("%" + ['u'] + ("Y" + ("%" + ['u'] + (";" + ""))));
    assert [Word(x), Word(y)] == [Word(x)] + ([Word(y)] + []);
    assert [ESC] + "X" + ix + "Y" + iy + ";" == [ESC] + "X" + (ix + ("Y" + (iy + (";" + ""))));
  }

  lemma IntIsDecimal(n: nat)
    ensures forall i :: 0 <= i < |Int(n, 10, 0)| ==> IsDecimal(Int(n, 10, 0)[i])
  {
    DecimalsOnly(n);
  }

  lemma MoveIsParsed(ix: string, iy: string)
    requires 'Y' !in ix && ';' !in iy
    ensures Escaped("X" + ix + "Y" + iy + ";") == (MoveTo(ix, iy), |ix| + |iy| + 3)
  {
    hide Until;
    var s := "X" + ix + "Y" + iy + ";";
    UntilStop(ix, 'Y', iy + ";");
    assert s[1..] == ix + ['Y'] + (iy + ";");
    UntilStop(iy, ';', "");
    assert Drop(s, |ix| + 2) == iy + [';'] + "";
    assert s[1..|ix| + 1] == ix;
    assert (iy + [';'] + "")[..|iy|] == iy;
  }

  lemma MoveIsShown(t: Screen, x: nat, y: nat)
    requires x < TWO_TO_31 && y < TWO_TO_31
    ensures var text := [ESC] + "X" + Int(x, 10, 0) + "Y" + Int(y, 10, 0) + ";";
            Ends(text) && Shown(t, text) == t.(x := x, y := y)
  {
    hide Int, Value, Accumulate, Escaped, Shown, Ends;
    var ix, iy := Int(x, 10, 0), Int(y, 10, 0);
    IntReadsBack(x, 10, 0);
    IntReadsBack(y, 10, 0);
    IntIsDecimal(x);
    IntIsDecimal(y);
    AccumulateIsValue(10, false, ix);
    AccumulateIsValue(10, false, iy);
    var s := "X" + ix + "Y" + iy + ";";
    MoveIsParsed(ix, iy);
    ShownSingle(t, s);
    assert [ESC] + s == [ESC] + "X" + ix + "Y" + iy + ";";
  }

  /** Printing a cursor move and writing it to the terminal puts the cursor there, whatever the
      position, and changes nothing else. */
  lemma MoveRoundTrip(t: Screen, x: nat, y: nat)
    requires x < TWO_TO_31 && y < TWO_TO_31
    ensures Complete(MOVE_FORMAT) && Supplied(Pieces(MOVE_FORMAT), [Word(x), Word(y)])
    ensures var text := Render(Pieces(MOVE_FORMAT), [Word(x), Word(y)]);
            Ends(text) && Shown(t, text) == t.(x := x, y := y)
  {
    hide Complete, Pieces, Supplied, Render, Int, Ends, Shown;
    MoveIsPrinted(x, y);
    MoveIsShown(t, x, y);
  }

  // Text that is one escape sequence.
  lemma ShownSingle(t: Screen, s: string)
    requires s != "" && Escaped(s).1 == |s|
    ensures Ends([ESC] + s) && Shown(t, [ESC] + s) == Obeyed(t, Escaped(s).0)
  {
    hide Escaped, Obeyed;
    assert ([ESC] + s)[1..] == s;
    assert ([ESC] + s)[1 + |s|..] == "";
  }

  // ---------- Colours ----------

  const COLOUR_FORMAT: string := "\U{1B}FG%#xBG%#x;"

  // The text a colour setting is printed as, after its ESC.
  function ColourText(hfg: string, hbg: string): string {
    "FG" + ("0x" + (hfg + ("BG0x" + hbg + ";")))
  }

  lemma ColoursArePrinted(fg: nat, bg: nat)
    requires fg < TWO_TO_32 && bg < TWO_TO_32
    ensures Prints(COLOUR_FORMAT, [Word(fg), Word(bg)], [ESC] + ColourText(Hex(fg, 0), Hex(bg, 0)))
  {
    hide Prints, Hex;
    var hf, hb := Hex(fg, 0), Hex(bg, 0);
    PrintsNothing();
    PrintsText(";", "", [], "");
    PrintsConversion(true, 'x', ";" + "", bg, [], ";" + "");
    var fmt, text := "%#" + ['x'] + (";" + ""), "0x" + hb + (";" + "");
    PrintsText("BG", fmt, [Word(bg)] + [], text);
    PrintsConversion(true, 'x', "BG" + fmt, fg, [Word(bg)] + [], "BG" + text);
    PrintsText([ESC] + "FG", "%#" + ['x'] + ("BG" + fmt), [Word(fg)] + ([Word(bg)] + []),
               "0x" + hf + ("BG" + text));
    assert COLOUR_FORMAT == [ESC] + "FG" + ("%#" + ['x'] + ("BG" + fmt));
    assert [Word(fg), Word(bg)] == [Word(fg)] + ([Word(bg)] + []);
    assert [ESC] + ColourText(hf, hb) == [ESC] + "FG" + ("0x" + hf + ("BG" + text));
  }

  // What the parser takes the second colour from, when the first number stops at its k-th digit.
  function SecondText(hfg: string, hbg: string, k: nat): string
    requires k <= |hfg|
  {
    (hfg + "BG0x" + hbg)[k + 2..]
  }

  // Where the parts of a colour setting stand.
  lemma ColourTextParts(hfg: string, hbg: string, k: nat)
    requires k <= |hfg|
    ensures var s := ColourText(hfg, hbg);
            && |s| >= 8 && s[..2] == "FG" && s[2..] == "0x" + (hfg + ("BG0x" + hbg + ";"))
            && k + 6 <= |s| && s[2..k + 4] == "0x" + hfg[..k]
            && s[k + 6..] == SecondText(hfg, hbg, k) + ";"
            && |s| == k + 6 + |SecondText(hfg, hbg, k)| + 1
  {
    var s, second := ColourText(hfg, hbg), SecondText(hfg, hbg, k);
    assert second + ";" == (hfg + ("BG0x" + hbg + ";"))[k + 2..];
  }

  /** The parser ends the first number at its first B, a digit of it or the one after it. */
  lemma ColoursAreParsed(hfg: string, hbg: string)
    requires IsDigits(hfg) && IsDigits(hbg)
    ensures var k := Until(hfg, 'B');
            Escaped(ColourText(hfg, hbg))
            == (Colours("0x" + hfg[..k], SecondText(hfg, hbg, k)), |ColourText(hfg, hbg)|)
  {
    hide ColourEnd, ColourText, SecondText, Until;
    var s, k := ColourText(hfg, hbg), Until(hfg, 'B');
    var second := SecondText(hfg, hbg, k);
    ColourTextParts(hfg, hbg, k);
    FirstNumberEnds(hfg, "BG0x" + hbg + ";");
    SecondHasNoStop(hfg, hbg, k);
    ColourEndsAtStop(second);
    assert (second + ";")[..|second|] == second;
    assert s[0] == s[..2][0] && s[1] == s[..2][1];
    assert s[..4][0] == s[0];
    assert ColourSetting(s) == (Colours("0x" + hfg[..k], second), |s|);
  }

  lemma SecondHasNoStop(hfg: string, hbg: string, k: nat)
    requires IsDigits(hfg) && IsDigits(hbg) && k <= |hfg|
    ensures ';' !in SecondText(hfg, hbg, k)
  {
    assert ';' !in hfg + "BG0x" + hbg;
  }

  lemma FirstNumberEnds(hfg: string, tail: string)
    requires tail != "" && tail[0] == 'B'
    ensures ColourEnd("0x" + (hfg + tail), 'B') == 2 + Until(hfg, 'B')
  {
    hide Until;
    var k := Until(hfg, 'B');
    var t := hfg + tail;
    assert ("0x" + t)[2..] == t;
    assert t[..k] == hfg[..k] && t[k] == 'B';
    CutAt(t, k);
    UntilStop(t[..k], 'B', t[k + 1..]);
  }

  lemma CutAt(s: string, k: nat)
    requires k < |s|
    ensures s == s[..k] + [s[k]] + s[k + 1..]
  {}

  lemma ColoursAreShown(t: Screen, fg: nat, bg: nat)
    requires fg < TWO_TO_32 && bg < TWO_TO_32
    ensures var text := [ESC] + ColourText(Hex(fg, 0), Hex(bg, 0));
            && Ends(text)
            && (Shown(t, text) == t.(fg := fg, bg := bg) <==> 'B' !in Hex(fg, 0))
  {
    hide Hex, Value, Escaped, Shown, Ends, Colour, Until;
    var hf, hb := Hex(fg, 0), Hex(bg, 0);
    HexReadsBack(fg, 0);
    HexReadsBack(bg, 0);
    ColoursAreParsed(hf, hb);
    ShownSingle(t, ColourText(hf, hb));
    var k := Until(hf, 'B');
    PrefixIsNoMore(hf, k);
    ColourOfPrefixed(hf[..k]);
    if k < |hf| {
      CutShortIsLess(hf, k);
    } else {
      assert hf[..k] == hf;
      assert SecondText(hf, hb, k) == "0x" + hb;
      ColourOfPrefixed(hb);
    }
  }

  /** Printing two colours and writing them to the terminal sets exactly those colours if and only
      if the foreground has no hexadecimal digit B; the background may be any. */
  lemma ColoursRoundTripIff(t: Screen, fg: nat, bg: nat)
    requires fg < TWO_TO_32 && bg < TWO_TO_32
    ensures Complete(COLOUR_FORMAT) && Supplied(Pieces(COLOUR_FORMAT), [Word(fg), Word(bg)])
    ensures var text := Render(Pieces(COLOUR_FORMAT), [Word(fg), Word(bg)]);
            && Ends(text)
            && (Shown(t, text) == t.(fg := fg, bg := bg) <==> 'B' !in Hex(fg, 0))
  {
    hide Complete, Pieces, Supplied, Render, Hex, Ends, Shown, ColourText;
    ColoursArePrinted(fg, bg);
    ColoursAreShown(t, fg, bg);
  }
}
