/** The terminal: text and escape sequences move its cursor and set its colours. */
module Terminal {
  import opened Words
  import opened Formatting

  const ESC: char := '\U{1B}'
  const LF: char := '\n'
  const CR: char := '\r'

  // The screen's size in characters, and the state escape sequences change.
  datatype Screen = Screen(
    columns: nat, rows: nat, x: nat, y: nat, fg: nat, bg: nat, cursor: bool)

  // ---------- Reading numbers out of escape sequences ----------

  // Characters before the first `stop`, or all of them.
  function Until(s: string, stop: char): (k: nat)
    ensures k <= |s| && stop !in s[..k] && (k < |s| ==> s[k] == stop)
  {
    if s == "" || s[0] == stop then 0
    else
      var k := Until(s[1..], stop);
      assert s[..k + 1] == [s[0]] + s[1..][..k];
      k + 1
  }

  // One more digit on the parser's running value, in 32 bits. Letters count from ten where the
  // number may be hexadecimal.
  function Taken(acc: nat, base: nat, letters: bool, c: char): nat {
    U32(acc * base + if letters then DigitValue(c) else c as int - '0' as int)
  }

  function Accumulate(acc: nat, base: nat, letters: bool, s: string): nat
    decreases |s|
  {
    if s == "" then acc else Accumulate(Taken(acc, base, letters, s[0]), base, letters, s[1..])
  }

  function Prefixed(s: string): bool {
    |s| >= 2 && s[0] == '0' && s[1] == 'x'
  }

  // A colour number: hexadecimal after "0x", decimal otherwise.
  function Colour(s: string): nat {
    if Prefixed(s) then Accumulate(0, 16, true, s[2..]) else Accumulate(0, 10, true, s)
  }

  function ColourEnd(s: string, stop: char): (k: nat)
    ensures k <= |s| && (k < |s| ==> s[k] == stop)
  {
    if Prefixed(s) then 2 + Until(s[2..], stop) else Until(s, stop)
  }

  predicate Starts(s: string, t: string) {
    |t| <= |s| && s[..|t|] == t
  }

  // An escape sequence's characters after ESC.
  datatype Escape =
    | MoveTo(x: string, y: string)
    | ClearScreen
    | Colours(fg: string, bg: string)
    | CursorOn
    | CursorOff
    | Backspace
    | Unknown

  // A cursor move from its "X" on, and how many characters the parser goes past.
  function Move(s: string): (Escape, nat)
    requires s != ""
  {
    var x := Until(s[1..], 'Y');
    var rest := Drop(s, x + 2);
    var y := Until(rest, ';');
    (MoveTo(s[1..x + 1], rest[..y]), x + y + 3)
  }

  // A colour setting from its "FG" on.
  function ColourSetting(s: string): (Escape, nat)
    requires |s| >= 2
  {
    var fg := ColourEnd(s[2..], 'B');
    var rest := Drop(s, fg + 4);
    var bg := ColourEnd(rest, ';');
    (Colours(s[2..fg + 2], rest[..bg]), fg + bg + 5)
  }

  // The escape sequence at the start of s, and how many characters the parser goes past.
  function Escaped(s: string): (r: (Escape, nat)) {
    if s == "" then (Unknown, 1)
    else if s[0] == 'X' then Move(s)
    else if Starts(s, "CLS;") then (ClearScreen, 4)
    else if Starts(s, "FG") then ColourSetting(s)
    else if Starts(s, "CSRON;") then (CursorOn, 6)
    else if Starts(s, "CSROFF;") then (CursorOff, 7)
    else if Starts(s, "BS;") then (Backspace, 3)
    else (Unknown, 1)
  }

  function Drop(s: string, n: nat): string {
    if n <= |s| then s[n..] else ""
  }

  function Obeyed(t: Screen, e: Escape): Screen {
    match e
    case MoveTo(x, y) => t.(x := Accumulate(0, 10, false, x), y := Accumulate(0, 10, false, y))
    case ClearScreen => t.(x := 0, y := 0)
    case Colours(fg, bg) => t.(fg := Colour(fg), bg := Colour(bg))
    case CursorOn => t.(cursor := true)
    case CursorOff => t.(cursor := false)
    case Backspace => t.(x := U32(t.x - 1))
    case Unknown => t
  }

  // ---------- Text ----------

  // One row down, or a scroll at the last row but one.
  function LineFeed(t: Screen): Screen {
    var y := U32(t.y + 1);
    if y >= U32(t.rows - 1) then t.(y := U32(y - 1)) else t.(y := y)
  }

  function Typed(t: Screen, c: char): Screen {
    if c == LF then LineFeed(t)
    else if c == CR then t.(x := 0)
    else if U32(t.x + 1) < t.columns then t.(x := U32(t.x + 1))
    else LineFeed(t.(x := 0))
  }

  // Every number in an escape sequence is followed by the character that ends it, in the text up to
  // a NUL outside escape sequences, where the terminal stops.
  predicate Ends(s: string)
    decreases |s|
  {
    if s == "" || s[0] == NUL then true
    else if s[0] != ESC then Ends(s[1..])
    else Escaped(s[1..]).1 < |s| && Ends(s[1 + Escaped(s[1..]).1..])
  }

  function Shown(t: Screen, s: string): Screen
    requires Ends(s)
    decreases |s|
  {
    if s == "" || s[0] == NUL then t
    else if s[0] != ESC then Shown(Typed(t, s[0]), s[1..])
    else Shown(Obeyed(t, Escaped(s[1..]).0), s[1 + Escaped(s[1..]).1..])
  }

  // How many characters the terminal goes past.
  function Stops(s: string): (n: nat)
    requires Ends(s)
    ensures n <= |s| && (n < |s| ==> s[n] == NUL)
    decreases |s|
  {
    if s == "" || s[0] == NUL then 0
    else if s[0] != ESC then 1 + Stops(s[1..])
    else 1 + Escaped(s[1..]).1 + Stops(s[1 + Escaped(s[1..]).1..])
  }

  lemma {:induction false} StopsAtNul(s: string)
    requires Ends(s) && (NUL !in s || ESC !in s)
    ensures Stops(s) == Until(s, NUL)
    ensures NUL !in s ==> Stops(s) == |s|
    decreases |s|
  {
    if NUL !in s {
      assert Until(s, NUL) == |s|;
    } else if s[0] != NUL {
      StopsAtNul(s[1..]);
    }
  }

  predicate OnScreen(t: Screen) {
    0 < t.columns < TWO_TO_32 && 1 < t.rows < TWO_TO_32 && t.x < t.columns && t.y < t.rows - 1
  }

  /** Text without escape sequences keeps the cursor on the screen, above the last row. */
  lemma {:induction false} TextStaysOnScreen(t: Screen, s: string)
    requires OnScreen(t) && ESC !in s
    ensures Ends(s) && OnScreen(Shown(t, s))
    decreases |s|
  {
    if s != "" && s[0] != NUL { TextStaysOnScreen(Typed(t, s[0]), s[1..]); }
  }

  // One step through the text from position i.
  lemma ShownSteps(t: Screen, s: string, i: nat)
    requires i < |s| && s[i] != NUL && Ends(s[i..])
    ensures s[i] != ESC ==> Ends(s[i + 1..]) && Shown(t, s[i..]) == Shown(Typed(t, s[i]), s[i + 1..])
                            && Stops(s[i..]) == 1 + Stops(s[i + 1..])
    ensures s[i] == ESC ==>
              && i + 1 < |s| && var (e, n) := Escaped(s[i + 1..]);
                 n <= |s| - (i + 1) && Ends(s[i + 1 + n..]) && Shown(t, s[i..]) == Shown(Obeyed(t, e), s[i + 1 + n..])
                 && Stops(s[i..]) == 1 + n + Stops(s[i + 1 + n..])
  {
    hide Escaped, Obeyed, Typed;
    assert s[i..][0] == s[i] && s[i..][1..] == s[i + 1..];
    if s[i] == ESC {
      var n := Escaped(s[i + 1..]).1;
      EscapedLength(s[i + 1..]);
      assert s[i..][1 + n..] == s[i + 1 + n..];
    }
  }

  lemma EscapedLength(s: string)
    ensures Escaped(s).1 >= 1
  {}

  class Terminal {
    const columns: nat
    const rows: nat
    var x: nat
    var y: nat
    var fg: nat
    var bg: nat
    var cursor: bool

    function Value(): Screen
      reads this
    {
      Screen(columns, rows, x, y, fg, bg, cursor)
    }

    // Reads digits up to `stop`.
    method ReadNumber(s: string, from: nat, base: nat, letters: bool, stop: char) returns (n: nat, i: nat)
      requires from <= |s| && Until(s[from..], stop) < |s| - from
      ensures i == from + Until(s[from..], stop) && s[i] == stop
      ensures n == Accumulate(0, base, letters, s[from..i])
    {
      hide Until, Taken;
      n, i := 0, from;
      ghost var end := from + Until(s[from..], stop);
      UntilIsFirst(s, from, stop);
      while s[i] != stop
        invariant from <= i <= end
        invariant Accumulate(n, base, letters, s[i..end]) == Accumulate(0, base, letters, s[from..end])
        decreases end - i
      {
        assert s[i..end][1..] == s[i + 1..end];
        n := NextDigit(n, base, letters, s[i]);
        i := i + 1;
      }
    }

    // Reads a colour up to `stop`.
    method ReadColour(s: string, from: nat, stop: char) returns (n: nat, i: nat)
      requires from <= |s| && ColourEnd(s[from..], stop) < |s| - from
      ensures i == from + ColourEnd(s[from..], stop) && s[i] == stop
      ensures n == Colour(s[from..i])
    {
      hide Until, Accumulate;
      var base: nat, start: nat := 10, from;
      if from + 1 < |s| && s[from] == '0' && s[from + 1] == 'x' {
        assert s[from..][2..] == s[from + 2..];
        base, start := 16, from + 2;
        n, i := ReadNumber(s, start, base, true, stop);
        assert s[from..i][2..] == s[start..i];
      } else {
        n, i := ReadNumber(s, start, base, true, stop);
      }
    }

    method MoveCursor(s: string, i: nat) returns (next: nat)
      requires i < |s| && Move(s[i..]).1 <= |s| - i
      modifies this`x, this`y
      ensures next == i + Move(s[i..]).1 <= |s|
      ensures Value() == Obeyed(old(Value()), Move(s[i..]).0)
    {
      hide Until, Accumulate, Move;
      MoveAt(s, i);
      x, next := ReadNumber(s, i + 1, 10, false, 'Y');
      y, next := ReadNumber(s, next + 1, 10, false, ';');
      next := next + 1;
    }

    method SetColours(s: string, i: nat) returns (next: nat)
      requires i + 2 <= |s| && ColourSetting(s[i..]).1 <= |s| - i
      modifies this`fg, this`bg
      ensures next == i + ColourSetting(s[i..]).1 <= |s|
      ensures Value() == Obeyed(old(Value()), ColourSetting(s[i..]).0)
    {
      hide ColourEnd, Colour, ColourSetting;
      ColoursAt(s, i);
      fg, next := ReadColour(s, i + 2, 'B');
      bg, next := ReadColour(s, next + 2, ';');
      next := next + 1;
    }

    // The escape sequence whose characters begin at i.
    method Escape(s: string, i: nat) returns (next: nat)
      requires i < |s| && Escaped(s[i..]).1 <= |s| - i
      modifies this
      ensures next == i + Escaped(s[i..]).1 <= |s|
      ensures Value() == Obeyed(old(Value()), Escaped(s[i..]).0)
    {
      hide Move, ColourSetting, Accumulate, Colour;
      next := i;
      if s[i] == 'X' {
        next := MoveCursor(s, i);
      } else if Starts(s[i..], "CLS;") {
        x, y := 0, 0;
        next := i + 4;
      } else if Starts(s[i..], "FG") {
        next := SetColours(s, i);
      } else if Starts(s[i..], "CSRON;") {
        cursor := true;
        next := i + 6;
      } else if Starts(s[i..], "CSROFF;") {
        cursor := false;
        next := i + 7;
      } else if Starts(s[i..], "BS;") {
        x := U32(x - 1);
        next := i + 3;
      } else {
        next := i + 1;
      }
    }

    method LineDown()
      modifies this`y
      ensures Value() == LineFeed(old(Value()))
    {
      y := U32(y + 1);
      if y >= U32(rows - 1) { y := U32(y - 1); }
    }

    method PutChar(c: char)
      modifies this`x, this`y
      ensures Value() == Typed(old(Value()), c)
    {
      if c == LF {
        LineDown();
        return;
      }
      if c == CR {
        x := 0;
        return;
      }
      if U32(x + 1) < columns {
        x := U32(x + 1);
        return;
      }
      x := 0;
      LineDown();
    }

    method Write(s: string) returns (written: nat)
      requires Ends(s)
      modifies this
      ensures Value() == Shown(old(Value()), s)
      ensures written == Stops(s)
    {
      hide Escaped, Obeyed, Typed;
      var i: nat := 0;
      assert s[0..] == s;
      while i < |s| && s[i] != NUL
        invariant i <= |s| && Ends(s[i..])
        invariant Shown(Value(), s[i..]) == Shown(old(Value()), s) && i + Stops(s[i..]) == Stops(s)
      {
        ShownSteps(Value(), s, i);
        if s[i] == ESC {
          i := Escape(s, i + 1);
        } else {
          PutChar(s[i]);
          i := i + 1;
        }
      }
      return i;
    }

    method NextDigit(n: nat, base: nat, letters: bool, c: char) returns (r: nat)
      ensures r == Taken(n, base, letters, c)
    {
      if letters && 'A' <= c <= 'F' {
        return U32(n * base + c as int - ('A' as int - 10));
      }
      return U32(n * base + c as int - '0' as int);
    }
  }

  // The two numbers of a cursor move, by where they stand in the text.
  lemma MoveAt(s: string, i: nat)
    requires i < |s| && Move(s[i..]).1 <= |s| - i
    ensures var y := i + 1 + Until(s[i + 1..], 'Y');
            && y < |s| && Until(s[y + 1..], ';') < |s| - (y + 1)
            && var end := y + 1 + Until(s[y + 1..], ';');
               Move(s[i..]) == (MoveTo(s[i + 1..y], s[y + 1..end]), end + 1 - i)
  {
    hide Until;
    var t, x := s[i..], Until(s[i + 1..], 'Y');
    assert t[1..] == s[i + 1..];
    var y := i + 1 + x;
    assert t[x + 2..] == s[y + 1..];
    assert t[1..x + 1] == s[i + 1..y];
    var n := Until(s[y + 1..], ';');
    assert s[y + 1..][..n] == s[y + 1..y + 1 + n];
  }

  lemma ColoursAt(s: string, i: nat)
    requires i + 2 <= |s| && ColourSetting(s[i..]).1 <= |s| - i
    ensures var b := i + 2 + ColourEnd(s[i + 2..], 'B');
            && b + 2 <= |s| && ColourEnd(s[b + 2..], ';') < |s| - (b + 2)
            && var end := b + 2 + ColourEnd(s[b + 2..], ';');
               ColourSetting(s[i..]) == (Colours(s[i + 2..b], s[b + 2..end]), end + 1 - i)
  {
    hide ColourEnd;
    var t, fg := s[i..], ColourEnd(s[i + 2..], 'B');
    assert t[2..] == s[i + 2..];
    var b := i + 2 + fg;
    assert t[fg + 4..] == s[b + 2..];
    assert t[2..fg + 2] == s[i + 2..b];
    var n := ColourEnd(s[b + 2..], ';');
    assert s[b + 2..][..n] == s[b + 2..b + 2 + n];
  }

  lemma UntilIsFirst(s: string, from: nat, stop: char)
    requires from <= |s|
    ensures var end := from + Until(s[from..], stop);
            end <= |s| && (end < |s| ==> s[end] == stop) && forall i :: from <= i < end ==> s[i] != stop
  {
    var k := Until(s[from..], stop);
    forall i | from <= i < from + k ensures s[i] != stop {
      assert s[i] == s[from..][..k][i - from];
    }
  }
}
