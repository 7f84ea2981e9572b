/** What the calculator makes of its error value, which is also the number -1: texts with a missing
    operand that it takes for a number, and texts of the grammar that it takes for an error. */
module CalculatorMinusOne {
  import opened Calculator

  // ---------- Missing operands ----------

  // n minus signs, with any blanks, then a character that starts no term, at `end`.
  predicate MinusChain(buf: Buffer, i: nat, n: nat, end: nat)
    decreases n
  {
    i <= End(buf) &&
    var k := SkipBlanks(buf, i);
    if n == 0 then k == end && buf[k] != '(' && buf[k] != '-' && !IsDigit(buf[k])
    else buf[k] == '-' && MinusChain(buf, k + 1, n - 1, end)
  }

  /** A chain of minus signs without an operand is the error exactly when their number is even;
      otherwise it is the number 1. The cursor is after them either way. */
  lemma {:induction false} MissingOperandIsErrorIff(buf: Buffer, i: nat, n: nat, end: nat)
    requires MinusChain(buf, i, n, end)
    ensures i <= end <= End(buf)
    ensures ParseTerm(buf, i) == Done(if n % 2 == 0 then ERROR else 1, end)
    decreases n
  {
    if n > 0 { MissingOperandIsErrorIff(buf, SkipBlanks(buf, i) + 1, n - 1, end); }
  }

  /** A text of nothing but minus signs is refused exactly when their number is even; otherwise its
      value is 1. */
  lemma OnlyMinusesAreRefusedIff(buf: Buffer, n: nat)
    requires MinusChain(buf, 0, n, End(buf))
    ensures ParseSum(buf, 0) == Done(if n % 2 == 0 then ERROR else 1, End(buf))
  {
    MissingOperandIsErrorIff(buf, 0, n, End(buf));
    assert SkipBlanks(buf, End(buf)) == End(buf);
    assert ProductLoop(buf, End(buf), 1) == SumLoop(buf, End(buf), 1) == Done(1, End(buf));
  }

  // The shortest such text.
  lemma LoneMinusIsOne()
    ensures ParseSum("-\0", 0) == Done(1, 1)
  {
    var buf: Buffer := "-\0";
    assert End(buf) == 1;
    assert MinusChain(buf, 1, 0, 1);
    OnlyMinusesAreRefusedIff(buf, 1);
  }

  // ---------- Grammar texts with an operand of -1 ----------

  // The first operand the parser compares with ERROR and finds equal to it is the last thing it
  // reads of the text.
  predicate ProductErrsLast(p: Product) {
    match p
    case Only(t) => TermChecked(t) && TermValue(t) == Num(ERROR)
    case By(q, _, _, t) => ProductChecked(q) && TermChecked(t) && TermValue(t) == Num(ERROR)
  }

  predicate SumErrsLast(s: Sum) {
    match s
    case Just(p) => ProductErrsLast(p) || (ProductChecked(p) && ProductValue(p) == Num(ERROR))
    case Add(r, _, _, p) =>
      SumChecked(r) && (ProductErrsLast(p) || (ProductChecked(p) && ProductValue(p) == Num(ERROR)))
  }

  // ---------- Open parentheses ----------

  function Weight(c: char): int {
    if c == '(' then 1 else if c == ')' then -1 else 0
  }

  // Parentheses opened less those closed from i to j.
  function Depth(buf: seq<char>, i: nat, j: nat): int
    requires i <= j <= |buf|
    decreases j - i
  {
    if i == j then 0 else Weight(buf[i]) + Depth(buf, i + 1, j)
  }

  lemma {:induction false} DepthSplits(buf: seq<char>, i: nat, j: nat, k: nat)
    requires i <= j <= k <= |buf|
    ensures Depth(buf, i, k) == Depth(buf, i, j) + Depth(buf, j, k)
    decreases j - i
  {
    if i < j { DepthSplits(buf, i + 1, j, k); }
  }

  lemma {:induction false} BlanksAreLevel(buf: Buffer, i: nat)
    requires i <= End(buf)
    ensures Depth(buf, i, SkipBlanks(buf, i)) == 0
    decreases End(buf) - i
  {
    if buf[i] == ' ' { BlanksAreLevel(buf, i + 1); }
  }

  lemma {:induction false} DigitsAreLevel(buf: Buffer, i: nat, num: int)
    requires i <= End(buf)
    ensures Depth(buf, i, ParseDigits(buf, i, num).scan) == 0
    decreases End(buf) - i
  {
    if IsDigit(buf[i]) { DigitsAreLevel(buf, i + 1, W32(num * 10 + Digit(buf[i]))); }
  }

  // Blanks and then one character.
  lemma ThenOne(buf: Buffer, i: nat)
    requires i <= End(buf) && SkipBlanks(buf, i) < End(buf)
    ensures Depth(buf, i, SkipBlanks(buf, i) + 1) == Weight(buf[SkipBlanks(buf, i)])
  {
    var k := SkipBlanks(buf, i);
    BlanksAreLevel(buf, i);
    DepthSplits(buf, i, k, k + 1);
    assert Depth(buf, k + 1, k + 1) == 0;
  }

  // The cursor has closed no parenthesis that parsing from i did not open.
  ghost predicate Level(buf: Buffer, i: nat, r: Outcome) {
    r.Done? ==> i <= r.scan <= End(buf) && Depth(buf, i, r.scan) >= 0
  }

  lemma LevelAfter(buf: Buffer, i: nat, j: nat, r: Outcome)
    requires i <= j <= End(buf) && Depth(buf, i, j) >= 0 && Level(buf, j, r)
    ensures Level(buf, i, r)
  {
    if r.Done? { DepthSplits(buf, i, j, r.scan); }
  }

  lemma {:induction false} TermIsLevel(buf: Buffer, i: nat)
    requires i <= End(buf)
    ensures Level(buf, i, ParseTerm(buf, i))
    decreases End(buf) - i, 0
  {
    var k := SkipBlanks(buf, i);
    BlanksAreLevel(buf, i);
    if buf[k] == '(' {
      SumIsLevel(buf, k + 1);
      ThenOne(buf, i);
      ParenIsLevel(buf, i, ParseSum(buf, k + 1));
    } else if buf[k] == '-' {
      TermIsLevel(buf, k + 1);
      ThenOne(buf, i);
      LevelAfter(buf, i, k + 1, ParseTerm(buf, k + 1));
    } else if IsDigit(buf[k]) {
      DigitsAreLevel(buf, k, 0);
      DepthSplits(buf, i, k, ParseDigits(buf, k, 0).scan);
    }
  }

  lemma ParenIsLevel(buf: Buffer, i: nat, inner: Outcome)
    requires i <= End(buf) && SkipBlanks(buf, i) < End(buf) && buf[SkipBlanks(buf, i)] == '('
    requires inner == ParseSum(buf, SkipBlanks(buf, i) + 1) && Level(buf, SkipBlanks(buf, i) + 1, inner)
    ensures Level(buf, i, ParseTerm(buf, i))
  {
    hide ParseSum;
    if inner.Done? {
      var k, m := SkipBlanks(buf, i), SkipBlanks(buf, inner.scan);
      ThenOne(buf, i);
      DepthSplits(buf, i, k + 1, inner.scan);
      BlanksAreLevel(buf, inner.scan);
      DepthSplits(buf, i, inner.scan, m);
      if buf[m] == ')' {
        ThenOne(buf, inner.scan);
        DepthSplits(buf, i, inner.scan, m + 1);
      }
    }
  }

  lemma {:induction false} ProductIsLevel(buf: Buffer, i: nat)
    requires i <= End(buf)
    ensures Level(buf, i, ParseProduct(buf, i))
    decreases End(buf) - i, 2
  {
    hide ParseTerm, ProductLoop;
    TermIsLevel(buf, i);
    match ParseTerm(buf, i)
    case Trap =>
    case Done(num, j) =>
      if num != ERROR {
        ProductLoopIsLevel(buf, j, num);
        LevelAfter(buf, i, j, ProductLoop(buf, j, num));
      }
  }

  lemma {:induction false} ProductLoopIsLevel(buf: Buffer, i: nat, num: int)
    requires i <= End(buf)
    ensures Level(buf, i, ProductLoop(buf, i, num))
    decreases End(buf) - i, 1
  {
    hide ParseTerm;
    var k := SkipBlanks(buf, i);
    BlanksAreLevel(buf, i);
    if buf[k] == '*' || buf[k] == '/' {
      ThenOne(buf, i);
      TermIsLevel(buf, k + 1);
      match ParseTerm(buf, k + 1)
      case Trap =>
      case Done(num2, j) =>
        LevelAfter(buf, i, k + 1, ParseTerm(buf, k + 1));
        if num2 != ERROR && (buf[k] == '*' || num2 != 0) {
          var next := if buf[k] == '*' then W32(num * num2) else W32(Quotient(num, num2));
          ProductLoopIsLevel(buf, j, next);
          LevelAfter(buf, i, j, ProductLoop(buf, j, next));
        }
    }
  }

  lemma {:induction false} SumIsLevel(buf: Buffer, i: nat)
    requires i <= End(buf)
    ensures Level(buf, i, ParseSum(buf, i))
    decreases End(buf) - i, 4
  {
    hide ParseProduct, SumLoop;
    ProductIsLevel(buf, i);
    match ParseProduct(buf, i)
    case Trap =>
    case Done(num, j) =>
      if num != ERROR {
        SumLoopIsLevel(buf, j, num);
        LevelAfter(buf, i, j, SumLoop(buf, j, num));
      }
  }

  lemma {:induction false} SumLoopIsLevel(buf: Buffer, i: nat, num: int)
    requires i <= End(buf)
    ensures Level(buf, i, SumLoop(buf, i, num))
    decreases End(buf) - i, 3
  {
    hide ParseProduct;
    var k := SkipBlanks(buf, i);
    BlanksAreLevel(buf, i);
    if buf[k] == '+' || buf[k] == '-' {
      ThenOne(buf, i);
      ProductIsLevel(buf, k + 1);
      match ParseProduct(buf, k + 1)
      case Trap =>
      case Done(num2, j) =>
        LevelAfter(buf, i, k + 1, ParseProduct(buf, k + 1));
        if num2 != ERROR {
          var next := W32(if buf[k] == '+' then num + num2 else num - num2);
          SumLoopIsLevel(buf, j, next);
          LevelAfter(buf, i, j, SumLoop(buf, j, next));
        }
    }
  }

  // ---------- Grammar texts are level ----------

  lemma FollowsIsLevel(buf: Buffer, i: nat, n: nat, op: char)
    requires i <= End(buf) && Follows(buf, i, n, op)
    ensures Depth(buf, i, i + n + 1) == Weight(op)
  {
    ThenOne(buf, i);
  }

  lemma {:induction false} TermTextIsLevel(buf: Buffer, i: nat, t: Term)
    requires Holds(buf, i, TermText(t))
    ensures Depth(buf, i, i + |TermText(t)|) == 0
    decreases t
  {
    hide Holds, Follows, TermText, SumText;
    var end := i + |TermText(t)|;
    match t
    case Number(_, _, _) => NumberTextIsLevel(buf, i, t);
    case Negated(blanks, u) =>
      NegatedAt(buf, i, t);
      TermTextIsLevel(buf, i + blanks + 1, u);
      HoldsFits(buf, i, TermText(t));
      FollowsIsLevel(buf, i, blanks, '-');
      DepthSplits(buf, i, i + blanks + 1, end);
    case Paren(blanks, s, close) =>
      var inner := i + blanks + 1 + |SumText(s)|;
      ParenAt(buf, i, t);
      SumTextIsLevel(buf, i + blanks + 1, s);
      HoldsFits(buf, i, TermText(t));
      FollowsIsLevel(buf, i, blanks, '(');
      FollowsIsLevel(buf, inner, close, ')');
      DepthSplits(buf, i, i + blanks + 1, inner);
      DepthSplits(buf, i, inner, end);
  }

  lemma HoldsFits(buf: Buffer, i: nat, text: string)
    requires Holds(buf, i, text)
    ensures i + |text| <= End(buf)
  {}

  lemma NumberTextIsLevel(buf: Buffer, i: nat, t: Term)
    requires t.Number? && Holds(buf, i, TermText(t))
    ensures Depth(buf, i, i + |TermText(t)|) == 0
  {
    var text := TermText(t);
    forall k | i <= k < i + |text| ensures Weight(buf[k]) == 0 {
      assert buf[k] == buf[i..i + |text|][k - i] == text[k - i];
    }
    NoWeightIsLevel(buf, i, i + |text|);
  }

  lemma {:induction false} NoWeightIsLevel(buf: seq<char>, i: nat, j: nat)
    requires i <= j <= |buf| && forall k :: i <= k < j ==> Weight(buf[k]) == 0
    ensures Depth(buf, i, j) == 0
    decreases j - i
  {
    if i < j { NoWeightIsLevel(buf, i + 1, j); }
  }

  lemma {:induction false} ProductTextIsLevel(buf: Buffer, i: nat, p: Product)
    requires Holds(buf, i, ProductText(p))
    ensures Depth(buf, i, i + |ProductText(p)|) == 0
    decreases p
  {
    hide Holds, Follows, ProductText, TermText;
    HoldsFits(buf, i, ProductText(p));
    match p
    case Only(t) =>
      TextOfOneTerm(t);
      TermTextIsLevel(buf, i, t);
    case By(q, blanks, op, t) =>
      FactorsAt(buf, i, p);
      var mid := i + |ProductText(q)|;
      ProductTextIsLevel(buf, i, q);
      FollowsIsLevel(buf, mid, blanks, op);
      TermTextIsLevel(buf, mid + blanks + 1, t);
      DepthSplits(buf, i, mid, mid + blanks + 1);
      DepthSplits(buf, i, mid + blanks + 1, i + |ProductText(p)|);
  }

  lemma {:induction false} SumTextIsLevel(buf: Buffer, i: nat, s: Sum)
    requires Holds(buf, i, SumText(s))
    ensures Depth(buf, i, i + |SumText(s)|) == 0
    decreases s
  {
    hide Holds, Follows, ProductText, SumText;
    HoldsFits(buf, i, SumText(s));
    match s
    case Just(p) =>
      TextOfOneProduct(p);
      ProductTextIsLevel(buf, i, p);
    case Add(r, blanks, op, p) =>
      AddendsAt(buf, i, s);
      var mid := i + |SumText(r)|;
      SumTextIsLevel(buf, i, r);
      FollowsIsLevel(buf, mid, blanks, op);
      ProductTextIsLevel(buf, mid + blanks + 1, p);
      DepthSplits(buf, i, mid, mid + blanks + 1);
      DepthSplits(buf, i, mid + blanks + 1, i + |SumText(s)|);
  }

  // ---------- What the parser does with them ----------

  // The parser faulted, or stopped inside a parenthesis it has not closed.
  ghost predicate Deep(buf: Buffer, i: nat, r: Outcome) {
    r.Done? ==> i <= r.scan <= End(buf) && Depth(buf, i, r.scan) > 0
  }

  // The same, or it returned the error before the end of the text.
  ghost predicate Short(buf: Buffer, i: nat, r: Outcome, end: nat) {
    Deep(buf, i, r) || (r.Done? && r.num == ERROR && r.scan < end)
  }

  lemma DeepAfter(buf: Buffer, i: nat, j: nat, r: Outcome)
    requires i <= j <= End(buf) && Depth(buf, i, j) >= 0 && Deep(buf, j, r)
    ensures Deep(buf, i, r)
  {
    if r.Done? { DepthSplits(buf, i, j, r.scan); }
  }

  // What runs on from inside an open parenthesis stays inside it.
  lemma DeepThenLevel(buf: Buffer, i: nat, j: nat, r: Outcome)
    requires i <= j <= End(buf) && Depth(buf, i, j) > 0 && Level(buf, j, r)
    ensures Deep(buf, i, r)
  {
    if r.Done? { DepthSplits(buf, i, j, r.scan); }
  }

  lemma NegationIsDeep(buf: Buffer, i: nat, n: nat)
    requires i <= End(buf) && Follows(buf, i, n, '-') && Deep(buf, i + n + 1, ParseTerm(buf, i + n + 1))
    ensures Deep(buf, i, ParseTerm(buf, i))
  {
    FollowsIsLevel(buf, i, n, '-');
    DeepAfter(buf, i, i + n + 1, ParseTerm(buf, i + n + 1));
  }

  // A parenthesis whose sum is refused, or not closed, stays open.
  lemma ParenIsDeep(buf: Buffer, i: nat, n: nat)
    requires i <= End(buf) && Follows(buf, i, n, '(')
    requires var inner := ParseSum(buf, i + n + 1);
             Level(buf, i + n + 1, inner) && (Deep(buf, i + n + 1, inner) || (inner.Done? && inner.num == ERROR))
    ensures Deep(buf, i, ParseTerm(buf, i))
  {
    hide ParseSum;
    var inner := ParseSum(buf, i + n + 1);
    FollowsIsLevel(buf, i, n, '(');
    if inner.Done? {
      DepthSplits(buf, i, i + n + 1, inner.scan);
      if inner.num != ERROR {
        var m := SkipBlanks(buf, inner.scan);
        BlanksAreLevel(buf, inner.scan);
        DepthSplits(buf, i, inner.scan, m);
        if buf[m] == ')' {
          ThenOne(buf, inner.scan);
          DepthSplits(buf, i, inner.scan, m + 1);
        }
      }
    }
  }

  lemma {:induction false} UncheckedTermIsDeep(buf: Buffer, i: nat, t: Term)
    requires Holds(buf, i, TermText(t)) && !IsDigit(buf[i + |TermText(t)|])
    requires !TermChecked(t) && TermValue(t).Num?
    ensures Deep(buf, i, ParseTerm(buf, i))
    decreases t
  {
    hide ParseTerm, ParseSum, Holds, Follows, Deep, TermText, SumText;
    HoldsFits(buf, i, TermText(t));
    match t
    case Negated(blanks, u) =>
      NegatedAt(buf, i, t);
      UncheckedTermIsDeep(buf, i + blanks + 1, u);
      NegationIsDeep(buf, i, blanks);
    case Paren(blanks, s, close) =>
      ParenAt(buf, i, t);
      FollowsEndsProduct(buf, i + blanks + 1 + |SumText(s)|, close, ')');
      HoldsFits(buf, i + blanks + 1, SumText(s));
      SumIsLevel(buf, i + blanks + 1);
      RefusedSum(buf, i + blanks + 1, s, close);
      ParenIsDeep(buf, i, blanks);
  }

  // A sum in parentheses that is -1, or has an operand that is: the error, or deeper still.
  lemma {:induction false} RefusedSum(buf: Buffer, i: nat, s: Sum, close: nat)
    requires Holds(buf, i, SumText(s)) && Follows(buf, i + |SumText(s)|, close, ')')
    requires EndsProduct(buf, i + |SumText(s)|)
    requires !(SumChecked(s) && SumValue(s) != Num(ERROR)) && SumValue(s).Num?
    ensures var r := ParseSum(buf, i);
            Deep(buf, i, r) || (r.Done? && r.num == ERROR)
    decreases s, 1
  {
    hide ParseSum, Holds, SumText;
    if SumChecked(s) {
      SumParses(buf, i, s);
    } else if SumErrsLast(s) {
      SumErrs(buf, i, s);
    } else {
      UncheckedSumIsShort(buf, i, s);
    }
  }

  lemma ProductErrs(buf: Buffer, i: nat, p: Product)
    requires Holds(buf, i, ProductText(p)) && !IsDigit(buf[i + |ProductText(p)|])
    requires ProductErrsLast(p) && ProductValue(p).Num?
    ensures ParseProduct(buf, i) == Done(ERROR, i + |ProductText(p)|)
  {
    hide ParseTerm, Holds, ProductText, TermText;
    match p
    case Only(t) =>
      TextOfOneTerm(t);
      TermParses(buf, i, t);
    case By(q, blanks, op, t) =>
      FactorsAt(buf, i, p);
      var mid := i + |ProductText(q)|;
      FollowsEndsProduct(buf, mid, blanks, op);
      ProductParses(buf, i, q);
      TermParses(buf, mid + blanks + 1, t);
      LoopErrs(buf, mid, blanks, op, i + |ProductText(p)|);
  }

  lemma LoopErrs(buf: Buffer, i: nat, n: nat, op: char, end: nat)
    requires i <= End(buf) && Follows(buf, i, n, op) && (op == '*' || op == '/')
    requires ParseTerm(buf, i + n + 1) == Done(ERROR, end)
    ensures forall num :: ProductLoop(buf, i, num) == Done(ERROR, end)
  {}

  // A product that is -1 as a whole, or ends in an operand that is.
  lemma LastProductErrs(buf: Buffer, i: nat, p: Product)
    requires Holds(buf, i, ProductText(p)) && EndsProduct(buf, i + |ProductText(p)|)
    requires ProductErrsLast(p) || (ProductChecked(p) && ProductValue(p) == Num(ERROR))
    requires ProductValue(p).Num?
    ensures var end := i + |ProductText(p)|;
            ParseProduct(buf, i) == Done(ERROR, end) || ParseProduct(buf, i) == Done(ERROR, SkipBlanks(buf, end))
  {
    hide ParseProduct, Holds, ProductText;
    if ProductErrsLast(p) { ProductErrs(buf, i, p); } else { ProductParses(buf, i, p); }
  }

  lemma SumErrs(buf: Buffer, i: nat, s: Sum)
    requires Holds(buf, i, SumText(s)) && EndsProduct(buf, i + |SumText(s)|)
    requires SumErrsLast(s) && SumValue(s).Num?
    ensures var end := i + |SumText(s)|;
            ParseSum(buf, i) == Done(ERROR, end) || ParseSum(buf, i) == Done(ERROR, SkipBlanks(buf, end))
  {
    hide ParseProduct, Holds, ProductText, SumText;
    match s
    case Just(p) =>
      TextOfOneProduct(p);
      LastProductErrs(buf, i, p);
    case Add(r, blanks, op, p) =>
      AddendsAt(buf, i, s);
      var mid := i + |SumText(r)|;
      FollowsEndsProduct(buf, mid, blanks, op);
      SumParses(buf, i, r);
      LastProductErrs(buf, mid + blanks + 1, p);
  }

  lemma FirstTermIsDeep(buf: Buffer, i: nat)
    requires i <= End(buf) && Deep(buf, i, ParseTerm(buf, i))
    ensures Deep(buf, i, ParseProduct(buf, i))
  {
    hide ParseTerm, ProductLoop;
    match ParseTerm(buf, i)
    case Trap =>
    case Done(num, j) =>
      if num != ERROR {
        ProductLoopIsLevel(buf, j, num);
        DeepThenLevel(buf, i, j, ProductLoop(buf, j, num));
      }
  }

  lemma NextTermIsDeep(buf: Buffer, i: nat, num: int, n: nat, op: char)
    requires i <= End(buf) && Follows(buf, i, n, op) && (op == '*' || op == '/')
    requires Deep(buf, i + n + 1, ParseTerm(buf, i + n + 1))
    ensures Deep(buf, i, ProductLoop(buf, i, num))
  {
    hide ParseTerm;
    FollowsIsLevel(buf, i, n, op);
    DeepAfter(buf, i, i + n + 1, ParseTerm(buf, i + n + 1));
    match ParseTerm(buf, i + n + 1)
    case Trap =>
    case Done(num2, j) =>
      if num2 != ERROR && (op == '*' || num2 != 0) {
        var next := if op == '*' then W32(num * num2) else W32(Quotient(num, num2));
        ProductLoopIsLevel(buf, j, next);
        DeepThenLevel(buf, i, j, ProductLoop(buf, j, next));
      }
  }

  lemma {:induction false} UncheckedProductIsShort(buf: Buffer, i: nat, p: Product)
    requires Holds(buf, i, ProductText(p)) && !IsDigit(buf[i + |ProductText(p)|])
    requires !ProductChecked(p) && !ProductErrsLast(p) && ProductValue(p).Num?
    ensures Short(buf, i, ParseProduct(buf, i), i + |ProductText(p)|)
    decreases p
  {
    hide ParseTerm, ParseProduct, ProductLoop, Holds, Follows, ProductText, TermText, Deep;
    HoldsFits(buf, i, ProductText(p));
    match p
    case Only(t) =>
      TextOfOneTerm(t);
      UncheckedTermIsDeep(buf, i, t);
      FirstTermIsDeep(buf, i);
    case By(q, blanks, op, t) =>
      FactorsAt(buf, i, p);
      var mid := i + |ProductText(q)|;
      FollowsEndsProduct(buf, mid, blanks, op);
      if ProductChecked(q) {
        ProductParses(buf, i, q);
        UncheckedTermIsDeep(buf, mid + blanks + 1, t);
        NextTermIsDeep(buf, mid, ProductValue(q).n, blanks, op);
        ProductTextIsLevel(buf, i, q);
        DeepAfter(buf, i, mid, ProductLoop(buf, mid, ProductValue(q).n));
      } else if ProductErrsLast(q) {
        ProductErrs(buf, i, q);
      } else {
        UncheckedProductIsShort(buf, i, q);
      }
  }

  lemma FirstProductIsShort(buf: Buffer, i: nat, end: nat)
    requires i <= End(buf) && Short(buf, i, ParseProduct(buf, i), end)
    ensures Short(buf, i, ParseSum(buf, i), end)
  {
    hide ParseProduct, SumLoop;
    match ParseProduct(buf, i)
    case Trap =>
    case Done(num, j) =>
      if num != ERROR {
        SumLoopIsLevel(buf, j, num);
        DeepThenLevel(buf, i, j, SumLoop(buf, j, num));
      }
  }

  lemma NextProductIsShort(buf: Buffer, i: nat, num: int, n: nat, op: char, end: nat)
    requires i <= End(buf) && Follows(buf, i, n, op) && (op == '+' || op == '-')
    requires Short(buf, i + n + 1, ParseProduct(buf, i + n + 1), end)
    ensures Short(buf, i, SumLoop(buf, i, num), end)
  {
    hide ParseProduct;
    FollowsIsLevel(buf, i, n, op);
    match ParseProduct(buf, i + n + 1)
    case Trap =>
    case Done(num2, j) =>
      if Deep(buf, i + n + 1, ParseProduct(buf, i + n + 1)) {
        DeepAfter(buf, i, i + n + 1, ParseProduct(buf, i + n + 1));
        if num2 != ERROR {
          var next := W32(if op == '+' then num + num2 else num - num2);
          SumLoopIsLevel(buf, j, next);
          DeepThenLevel(buf, i, j, SumLoop(buf, j, next));
        }
      }
  }

  lemma {:induction false} UncheckedSumIsShort(buf: Buffer, i: nat, s: Sum)
    requires Holds(buf, i, SumText(s)) && EndsProduct(buf, i + |SumText(s)|)
    requires !SumChecked(s) && !SumErrsLast(s) && SumValue(s).Num?
    ensures Short(buf, i, ParseSum(buf, i), i + |SumText(s)|)
    decreases s, 0
  {
    hide ParseProduct, ParseSum, SumLoop, Holds, ProductText, SumText, Deep;
    HoldsFits(buf, i, SumText(s));
    match s
    case Just(p) =>
      TextOfOneProduct(p);
      UncheckedProductIsShort(buf, i, p);
      FirstProductIsShort(buf, i, i + |SumText(s)|);
    case Add(r, blanks, op, p) =>
      AddendsAt(buf, i, s);
      var mid, end := i + |SumText(r)|, i + |SumText(s)|;
      FollowsEndsProduct(buf, mid, blanks, op);
      if SumChecked(r) {
        SumParses(buf, i, r);
        UncheckedProductIsShort(buf, mid + blanks + 1, p);
        NextProductIsShort(buf, mid, SumValue(r).n, blanks, op, end);
        SumTextIsLevel(buf, i, r);
        ShortAfter(buf, i, mid, SumLoop(buf, mid, SumValue(r).n), end);
      } else if SumErrsLast(r) {
        SumErrs(buf, i, r);
      } else {
        UncheckedSumIsShort(buf, i, r);
      }
  }

  lemma ShortAfter(buf: Buffer, i: nat, j: nat, r: Outcome, end: nat)
    requires i <= j <= End(buf) && Depth(buf, i, j) == 0 && Short(buf, j, r, end)
    ensures Short(buf, i, r, end)
  {
    if Deep(buf, j, r) { DeepAfter(buf, i, j, r); }
  }

  /** A text of the grammar that does not divide by zero: the parser computes its value and stops at
      its end exactly when no operand it compares with ERROR is -1, or the first one that is is the
      last thing it reads and the value of the whole is -1, as in "-1". */
  lemma GrammarTextEvaluatesIff(buf: Buffer, s: Sum)
    requires buf[..End(buf)] == SumText(s) && SumValue(s).Num?
    ensures Parsed(ParseSum(buf, 0), SumValue(s), End(buf))
            <==> SumChecked(s) || (SumErrsLast(s) && SumValue(s) == Num(ERROR))
  {
    hide ParseSum, SumText, SumChecked, SumErrsLast;
    assert buf[0..0 + |SumText(s)|] == SumText(s);
    assert SkipBlanks(buf, End(buf)) == End(buf);
    if SumChecked(s) {
      PrintedSumsEvaluate(buf, s);
    } else if SumErrsLast(s) {
      SumErrs(buf, 0, s);
    } else {
      UncheckedSumIsShort(buf, 0, s);
      SumTextIsLevel(buf, 0, s);
    }
  }

  lemma OneDigit(d: DigitValue)
    ensures TermValue(Number(0, d, [])) == Num(d)
  {
    assert [d] + [] == [d];
    assert Decimal([d], 0) == Decimal([d][1..], d);
  }

  // 2*(1-2), whose value is -2.
  function TwiceMinusOne(): Sum {
    Just(By(Only(Number(0, 2, [])), 0, '*',
            Paren(0, Add(Just(Only(Number(0, 1, []))), 0, '-', Only(Number(0, 2, []))), 0)))
  }

  /** The parser does not evaluate it to that, or does not read it to its end. */
  lemma TwiceMinusOneIsNotEvaluated(buf: Buffer)
    requires buf[..End(buf)] == SumText(TwiceMinusOne())
    ensures SumValue(TwiceMinusOne()) == Num(-2) && !Parsed(ParseSum(buf, 0), Num(-2), End(buf))
  {
    hide ParseSum, SumText, Parsed;
    var one, two: Term := Number(0, 1, []), Number(0, 2, []);
    OneDigit(1);
    OneDigit(2);
    var inner := Add(Just(Only(one)), 0, '-', Only(two));
    assert SumValue(inner) == Num(ERROR);
    assert !TermChecked(Paren(0, inner, 0));
    GrammarTextEvaluatesIff(buf, TwiceMinusOne());
  }

  // -1, which comes out right though its operand is the error value.
  lemma MinusOneIsEvaluated(buf: Buffer)
    requires buf[..End(buf)] == SumText(Just(Only(Negated(0, Number(0, 1, [])))))
    ensures Parsed(ParseSum(buf, 0), Num(ERROR), End(buf))
  {
    hide ParseSum, SumText, Parsed;
    OneDigit(1);
    GrammarTextEvaluatesIff(buf, Just(Only(Negated(0, Number(0, 1, [])))));
  }
}
