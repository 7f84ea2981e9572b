/** Where text leaves the cursor, and what each control sequence does to the screen's state. */
module TerminalText {
  import opened Arithmetic
  import opened Words
  import opened Formatting
  import opened Terminal
  import opened EscapeRoundTrips

  // ---------- Plain text ----------

  // Characters that are drawn.
  predicate Plain(s: string) {
    ESC !in s && LF !in s && CR !in s && NUL !in s
  }

  // The cursor n characters further on, line after line, and never below the last row but one.
  function Further(t: Screen, n: nat): Screen
    requires t.columns > 0 && t.rows > 1
  {
    var y := t.y + (t.x + n) / t.columns;
    t.(x := (t.x + n) % t.columns, y := if y < t.rows - 1 then y else t.rows - 2)
  }

  lemma NextLine(n: nat, d: nat)
    requires d > 0
    ensures (d + n) / d == 1 + n / d && (d + n) % d == n % d
  {
    var q, r := n / d, n % d;
    assert n == d * q + r;
    assert d * (1 + q) == d + d * q;
    RemainderUnique(d + n, d, 1 + q, r);
  }

  lemma TypedIs(t: Screen, c: char)
    requires OnScreen(t) && c != ESC && c != LF && c != CR
    ensures OnScreen(Typed(t, c))
    ensures Typed(t, c) == if t.x + 1 < t.columns then t.(x := t.x + 1)
                           else if t.y + 2 < t.rows then t.(x := 0, y := t.y + 1) else t.(x := 0)
  {}

  lemma FurtherSteps(t: Screen, c: char, n: nat)
    requires OnScreen(t) && c != ESC && c != LF && c != CR
    ensures OnScreen(Typed(t, c)) && Further(Typed(t, c), n) == Further(t, n + 1)
  {
    TypedIs(t, c);
    if t.x + 1 == t.columns { NextLine(n, t.columns); }
  }

  /** Text of n characters moves the cursor n places, from line to line, and at the bottom of the
      screen keeps it in the last row but one; colours and the cursor's visibility stay. */
  lemma {:induction false} TextMovesCursor(t: Screen, s: string)
    requires OnScreen(t) && Plain(s)
    ensures Ends(s) && Shown(t, s) == Further(t, |s|)
    decreases |s|
  {
    hide Typed, Further;
    if s == "" {
      NoFurther(t);
    } else {
      FurtherSteps(t, s[0], |s| - 1);
      TextMovesCursor(Typed(t, s[0]), s[1..]);
      hide Shown, Ends, OnScreen;
      assert [s[0]] + s[1..] == s;
      ThenShown(t, s[0], s[1..]);
    }
  }

  lemma NoFurther(t: Screen)
    requires OnScreen(t)
    ensures Further(t, 0) == t
  {
    RemainderUnique(t.x, t.columns, 0, t.x);
  }

  // Line after line of text, as long as the screen has rows for it: the cursor's place counted from
  // the top left corner.
  function Place(t: Screen): nat {
    t.y * t.columns + t.x
  }

  lemma TextAdvances(t: Screen, s: string)
    requires OnScreen(t) && Plain(s) && Place(t) + |s| < t.columns * (t.rows - 1)
    ensures Ends(s) && Place(Shown(t, s)) == Place(t) + |s|
  {
    hide Shown, Further, Place;
    TextMovesCursor(t, s);
    FurtherAdvances(t, |s|);
  }

  lemma FurtherAdvances(t: Screen, n: nat)
    requires OnScreen(t) && Place(t) + n < t.columns * (t.rows - 1)
    ensures Place(Further(t, n)) == Place(t) + n
  {
    var q, r := LinesOf(t.x + n, t.columns, t.y);
    BelowBottom(t.columns, t.y + q, t.rows - 1);
  }

  lemma LinesOf(n: nat, d: nat, y: nat) returns (q: nat, r: nat)
    requires d > 0
    ensures q == n / d && r == n % d
    ensures (y + q) * d + r == y * d + n && d * (y + q) <= y * d + n
  {
    q, r := n / d, n % d;
    assert n == d * q + r;
    assert (y + q) * d == y * d + d * q;
  }

  lemma BelowBottom(d: nat, y: nat, rows: nat)
    requires d * y < d * rows
    ensures y < rows
  {
    MulMonotone(d, rows, y);
  }

  // ---------- Line feed and carriage return ----------

  function Down(t: Screen): Screen {
    if t.y + 2 < t.rows then t.(y := t.y + 1) else t
  }

  lemma LineFeedIsDown(t: Screen)
    requires OnScreen(t)
    ensures Ends([LF]) && Shown(t, [LF]) == Down(t)
    ensures Ends([CR]) && Shown(t, [CR]) == t.(x := 0)
  {
    ShownCharacter(t, LF);
    ShownCharacter(t, CR);
  }

  lemma ShownCharacter(t: Screen, c: char)
    requires c != ESC && c != NUL
    ensures Ends([c]) && Shown(t, [c]) == Typed(t, c)
  {
    assert [c][1..] == "";
  }

  // ---------- Control sequences ----------

  /** Clearing the screen puts the cursor in the top left corner, the two cursor sequences show and
      hide it, and a backspace moves it one column left; nothing else of the state changes. */
  lemma ControlsAre(t: Screen)
    ensures Ends([ESC] + "CLS;") && Shown(t, [ESC] + "CLS;") == t.(x := 0, y := 0)
    ensures Ends([ESC] + "CSRON;") && Shown(t, [ESC] + "CSRON;") == t.(cursor := true)
    ensures Ends([ESC] + "CSROFF;") && Shown(t, [ESC] + "CSROFF;") == t.(cursor := false)
    ensures Ends([ESC] + "BS;") && (t.x < TWO_TO_32 ==>
              Shown(t, [ESC] + "BS;") == t.(x := if t.x > 0 then t.x - 1 else TWO_TO_32 - 1))
  {
    hide Shown, Ends;
    ControlsAreParsed();
    ShownSingle(t, "CLS;");
    ShownSingle(t, "CSRON;");
    ShownSingle(t, "CSROFF;");
    ShownSingle(t, "BS;");
  }

  lemma ControlsAreParsed()
    ensures Escaped("CLS;") == (ClearScreen, 4) && Escaped("CSRON;") == (CursorOn, 6)
    ensures Escaped("CSROFF;") == (CursorOff, 7) && Escaped("BS;") == (Backspace, 3)
  {
    CursorOnIsParsed();
    CursorOffIsParsed();
    hide Move, ColourSetting;
    assert Starts("CLS;", "CLS;") && Starts("BS;", "BS;");
  }

  lemma CursorOnIsParsed()
    ensures Escaped("CSRON;") == (CursorOn, 6)
  {
    hide Move, ColourSetting;
    var s := "CSRON;";
    assert s[1] == 'S' && "CLS;"[1] == 'L' && s[..4][1] == 'S';
    assert Starts(s, "CSRON;");
  }

  lemma CursorOffIsParsed()
    ensures Escaped("CSROFF;") == (CursorOff, 7)
  {
    hide Move, ColourSetting;
    var s := "CSROFF;";
    assert s[1] == 'S' && "CLS;"[1] == 'L' && s[..4][1] == 'S';
    assert s[4] == 'F' && "CSRON;"[4] == 'N' && s[..6][4] == 'F';
    assert Starts(s, "CSROFF;");
  }

  /** A backspace takes the cursor off the screen exactly from the first column. */
  lemma BackspaceStaysOnScreenIff(t: Screen)
    requires OnScreen(t)
    ensures Ends([ESC] + "BS;") && (OnScreen(Shown(t, [ESC] + "BS;")) <==> t.x > 0)
  {
    ControlsAre(t);
  }

  /** A backspace after a character takes the cursor back to where the character was drawn exactly
      unless that was the end of a line. */
  lemma BackspaceUndoesIff(t: Screen, c: char)
    requires OnScreen(t) && Plain([c])
    ensures Ends([c] + ([ESC] + "BS;"))
    ensures Shown(t, [c] + ([ESC] + "BS;")) == t <==> t.x + 1 < t.columns
  {
    hide Shown, Ends;
    assert c in [c];
    TypedIs(t, c);
    ControlsAre(Typed(t, c));
    ThenShown(t, c, [ESC] + "BS;");
  }

  lemma ThenShown(t: Screen, c: char, s: string)
    requires c != ESC && c != NUL && Ends(s)
    ensures Ends([c] + s) && Shown(t, [c] + s) == Shown(Typed(t, c), s)
  {
    assert ([c] + s)[1..] == s;
  }
}
