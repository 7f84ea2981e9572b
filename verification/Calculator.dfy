/** The calculator's recursive-descent evaluator: a cursor over a NUL-terminated buffer, 32-bit
    results, and -1 doubling as the error value. */
module Calculator {
  const ERROR: int := -1
  const NUL: char := '\0'

  // An int32_t result.
  function W32(x: int): int {
    (x + 0x8000_0000) % 0x1_0000_0000 - 0x8000_0000
  }

  // C division: the quotient is truncated towards zero.
  function Quotient(a: int, b: int): int
    requires b != 0
  {
    if (a >= 0) == (b > 0) then Abs(a) / Abs(b) else -(Abs(a) / Abs(b))
  }

  function Abs(x: int): nat {
    if x >= 0 then x else -x
  }

  // ---------- The buffer ----------

  type Buffer = b: seq<char> | NUL in b witness [NUL]

  // Where the text ends.
  function End(buf: Buffer): (n: nat)
    ensures n < |buf| && buf[n] == NUL && NUL !in buf[..n]
  {
    FirstNul(buf, 0)
  }

  function FirstNul(buf: seq<char>, i: nat): (n: nat)
    requires i <= |buf| && NUL in buf[i..] && NUL !in buf[..i]
    ensures n < |buf| && buf[n] == NUL && NUL !in buf[..n]
    decreases |buf| - i
  {
    if buf[i] == NUL then i else FirstNul(buf, i + 1)
  }

  predicate IsDigit(c: char) {
    '0' <= c <= '9'
  }

  function Digit(c: char): nat
    requires IsDigit(c)
  {
    (c - '0') as nat
  }

  // ---------- What the parse functions compute ----------

  // Trap: a division by zero faults. Otherwise the value (or ERROR) and the new cursor.
  datatype Outcome = Trap | Done(num: int, scan: nat)

  function SkipBlanks(buf: Buffer, i: nat): (j: nat)
    requires i <= End(buf)
    ensures i <= j <= End(buf) && buf[j] != ' '
    decreases End(buf) - i
  {
    if buf[i] == ' ' then SkipBlanks(buf, i + 1) else i
  }

  function ParseDigits(buf: Buffer, i: nat, num: int): (r: Outcome)
    requires i <= End(buf)
    ensures r.Done? && i <= r.scan <= End(buf)
    decreases End(buf) - i
  {
    if IsDigit(buf[i]) then ParseDigits(buf, i + 1, W32(num * 10 + Digit(buf[i]))) else Done(num, i)
  }

  function ParseNumber(buf: Buffer, i: nat): (r: Outcome)
    requires i <= End(buf)
    ensures r.Done? && i <= r.scan <= End(buf)
  {
    if IsDigit(buf[i]) then ParseDigits(buf, i, 0) else Done(ERROR, i)
  }

  function ParseTerm(buf: Buffer, i: nat): (r: Outcome)
    requires i <= End(buf)
    ensures r.Done? ==> i <= r.scan <= End(buf)
    decreases End(buf) - i, 0
  {
    var k := SkipBlanks(buf, i);
    if buf[k] == '(' then
      match ParseSum(buf, k + 1)
      case Trap => Trap
      case Done(num, j) =>
        if num == ERROR then Done(ERROR, j)
        else
          var m := SkipBlanks(buf, j);
          if buf[m] == ')' then Done(num, m + 1) else Done(ERROR, m)
    else if buf[k] == '-' then
      match ParseTerm(buf, k + 1)
      case Trap => Trap
      case Done(num, j) => Done(W32(-num), j)
    else ParseNumber(buf, k)
  }

  function ParseProduct(buf: Buffer, i: nat): (r: Outcome)
    requires i <= End(buf)
    ensures r.Done? ==> i <= r.scan <= End(buf)
    decreases End(buf) - i, 2
  {
    match ParseTerm(buf, i)
    case Trap => Trap
    case Done(num, j) => if num == ERROR then Done(ERROR, j) else ProductLoop(buf, j, num)
  }

  function ProductLoop(buf: Buffer, i: nat, num: int): (r: Outcome)
    requires i <= End(buf)
    ensures r.Done? ==> i <= r.scan <= End(buf)
    decreases End(buf) - i, 1
  {
    var k := SkipBlanks(buf, i);
    if buf[k] == '*' || buf[k] == '/' then
      match ParseTerm(buf, k + 1)
      case Trap => Trap
      case Done(num2, j) =>
        if num2 == ERROR then Done(ERROR, j)
        else if buf[k] == '*' then ProductLoop(buf, j, W32(num * num2))
        else if num2 == 0 then Trap
        else ProductLoop(buf, j, W32(Quotient(num, num2)))
    else Done(num, k)
  }

  function ParseSum(buf: Buffer, i: nat): (r: Outcome)
    requires i <= End(buf)
    ensures r.Done? ==> i <= r.scan <= End(buf)
    decreases End(buf) - i, 4
  {
    match ParseProduct(buf, i)
    case Trap => Trap
    case Done(num, j) => if num == ERROR then Done(ERROR, j) else SumLoop(buf, j, num)
  }

  function SumLoop(buf: Buffer, i: nat, num: int): (r: Outcome)
    requires i <= End(buf)
    ensures r.Done? ==> i <= r.scan <= End(buf)
    decreases End(buf) - i, 3
  {
    var k := SkipBlanks(buf, i);
    if buf[k] == '+' || buf[k] == '-' then
      match ParseProduct(buf, k + 1)
      case Trap => Trap
      case Done(num2, j) =>
        if num2 == ERROR then Done(ERROR, j)
        else SumLoop(buf, j, W32(if buf[k] == '+' then num + num2 else num - num2))
    else Done(num, k)
  }

  // ---------- Expressions of the grammar, with their blanks ----------

  type DigitValue = d: nat | d < 10

  type SumOp = c: char | c == '+' || c == '-' witness '+'
  type ProductOp = c: char | c == '*' || c == '/' witness '*'

  datatype Sum = Just(p: Product) | Add(s: Sum, blanks: nat, op: SumOp, p: Product)
  datatype Product = Only(t: Term) | By(p: Product, blanks: nat, op: ProductOp, t: Term)
  datatype Term =
    | Number(blanks: nat, first: DigitValue, more: seq<DigitValue>)
    | Negated(blanks: nat, t: Term)
    | Paren(blanks: nat, s: Sum, close: nat)

  function Blanks(n: nat): (s: string)
    ensures |s| == n && forall i :: 0 <= i < n ==> s[i] == ' '
  {
    seq(n, _ => ' ')
  }

  function DigitChar(d: DigitValue): (c: char)
    ensures IsDigit(c) && Digit(c) == d
  {
    '0' + d as char
  }

  function DigitText(ds: seq<DigitValue>): (s: string)
    ensures |s| == |ds| && forall i :: 0 <= i < |s| ==> s[i] == DigitChar(ds[i])
  {
    seq(|ds|, i requires 0 <= i < |ds| => DigitChar(ds[i]))
  }

  function TermText(t: Term): string {
    match t
    case Number(blanks, first, more) => Blanks(blanks) + DigitText([first] + more)
    case Negated(blanks, u) => Blanks(blanks) + "-" + TermText(u)
    case Paren(blanks, s, close) => Blanks(blanks) + "(" + SumText(s) + Blanks(close) + ")"
  }

  function ProductText(p: Product): string {
    match p
    case Only(t) => TermText(t)
    case By(q, blanks, op, t) => ProductText(q) + Blanks(blanks) + [op] + TermText(t)
  }

  function SumText(s: Sum): string {
    match s
    case Just(p) => ProductText(p)
    case Add(r, blanks, op, p) => SumText(r) + Blanks(blanks) + [op] + ProductText(p)
  }

  // ---------- Their 32-bit value ----------

  datatype Value = Fault | Num(n: int)

  function Apply(op: char, x: Value, y: Value): Value {
    if x.Fault? || y.Fault? then Fault
    else if op == '+' then Num(W32(x.n + y.n))
    else if op == '-' then Num(W32(x.n - y.n))
    else if op == '*' then Num(W32(x.n * y.n))
    else if y.n == 0 then Fault
    else Num(W32(Quotient(x.n, y.n)))
  }

  function Decimal(ds: seq<DigitValue>, num: int): int {
    if ds == [] then num else Decimal(ds[1..], W32(num * 10 + ds[0]))
  }

  function TermValue(t: Term): Value {
    match t
    case Number(_, first, more) => Num(Decimal([first] + more, 0))
    case Negated(_, u) => if TermValue(u).Fault? then Fault else Num(W32(-TermValue(u).n))
    case Paren(_, s, _) => SumValue(s)
  }

  function ProductValue(p: Product): Value {
    match p
    case Only(t) => TermValue(t)
    case By(q, _, op, t) => Apply(op, ProductValue(q), TermValue(t))
  }

  function SumValue(s: Sum): Value {
    match s
    case Just(p) => ProductValue(p)
    case Add(r, _, op, p) => Apply(op, SumValue(r), ProductValue(p))
  }

  // No operand the parser compares with ERROR has that value. Running totals and the operand of
  // a unary minus are not compared.
  predicate TermChecked(t: Term) {
    match t
    case Number(_, _, _) => true
    case Negated(_, u) => TermChecked(u)
    case Paren(_, s, _) => SumChecked(s) && SumValue(s) != Num(ERROR)
  }

  predicate ProductChecked(p: Product) {
    match p
    case Only(t) => TermChecked(t) && TermValue(t) != Num(ERROR)
    case By(q, _, _, t) => ProductChecked(q) && TermChecked(t) && TermValue(t) != Num(ERROR)
  }

  predicate SumChecked(s: Sum) {
    match s
    case Just(p) => ProductChecked(p) && ProductValue(p) != Num(ERROR)
    case Add(r, _, _, p) => SumChecked(r) && ProductChecked(p) && ProductValue(p) != Num(ERROR)
  }

  // ---------- Parsing printed expressions ----------

  // The text at position i of the buffer.
  predicate Holds(buf: Buffer, i: nat, text: string) {
    i + |text| <= End(buf) && buf[i..i + |text|] == text
  }

  lemma HoldsConcat(buf: Buffer, i: nat, s: string, t: string)
    ensures Holds(buf, i, s + t) <==> Holds(buf, i, s) && Holds(buf, i + |s|, t)
  {
    if i + |s + t| <= End(buf) {
      var both := buf[i..i + |s + t|];
      assert both == buf[i..i + |s|] + buf[i + |s|..i + |s| + |t|];
      assert both[..|s|] == buf[i..i + |s|] && both[|s|..] == buf[i + |s|..i + |s| + |t|];
      assert (s + t)[..|s|] == s && (s + t)[|s|..] == t;
    }
  }

  lemma {:induction false} SkipsBlanks(buf: Buffer, i: nat, n: nat)
    requires Holds(buf, i, Blanks(n)) && buf[i + n] != ' '
    ensures SkipBlanks(buf, i) == i + n
    decreases n
  {
    if n == 0 {
    } else {
      assert buf[i] == buf[i..i + n][0];
      assert buf[i + 1..i + 1 + (n - 1)] == Blanks(n)[1..] == Blanks(n - 1);
      SkipsBlanks(buf, i + 1, n - 1);
    }
  }

  lemma {:induction false} DigitsParse(buf: Buffer, i: nat, ds: seq<DigitValue>, num: int)
    requires Holds(buf, i, DigitText(ds)) && !IsDigit(buf[i + |ds|])
    ensures ParseDigits(buf, i, num) == Done(Decimal(ds, num), i + |ds|)
    decreases ds
  {
    if ds == [] {
    } else {
      assert buf[i] == buf[i..i + |ds|][0] == DigitChar(ds[0]);
      assert buf[i + 1..i + 1 + |ds[1..]|] == DigitText(ds)[1..] == DigitText(ds[1..]);
      DigitsParse(buf, i + 1, ds[1..], W32(num * 10 + ds[0]));
    }
  }

  // The first character that can follow the text of a product inside a sum or at its end.
  predicate EndsProduct(buf: Buffer, i: nat)
    requires i <= End(buf)
  {
    var k := SkipBlanks(buf, i);
    !IsDigit(buf[i]) && buf[k] != '*' && buf[k] != '/'
  }

  // Blanks then an operator follow position i.
  predicate Follows(buf: Buffer, i: nat, n: nat, op: char) {
    && i + n < End(buf) && buf[i + n] == op && !IsDigit(buf[i]) && SkipBlanks(buf, i) == i + n
  }

  lemma OperatorFollows(buf: Buffer, i: nat, n: nat, op: string)
    requires |op| == 1 && op[0] != ' ' && !IsDigit(op[0]) && Holds(buf, i, Blanks(n) + op)
    ensures Follows(buf, i, n, op[0])
  {
    HoldsConcat(buf, i, Blanks(n), op);
    assert buf[i + n..i + n + 1][0] == op[0];
    SkipsBlanks(buf, i, n);
    if n > 0 { assert buf[i] == buf[i..i + n][0]; }
  }

  // An operand, blanks, an operator, an operand.
  lemma OperandsAt(buf: Buffer, i: nat, left: string, n: nat, op: string, right: string)
    requires |op| == 1 && op[0] != ' ' && !IsDigit(op[0])
    requires Holds(buf, i, left + Blanks(n) + op + right)
    ensures Holds(buf, i, left) && Follows(buf, i + |left|, n, op[0])
    ensures Holds(buf, i + |left| + n + 1, right)
  {
    assert left + Blanks(n) + op + right == left + ((Blanks(n) + op) + right);
    HoldsConcat(buf, i, left, (Blanks(n) + op) + right);
    HoldsConcat(buf, i + |left|, Blanks(n) + op, right);
    OperatorFollows(buf, i + |left|, n, op);
  }

  // Parsing gave the value and ended at `end`, or faulted with it.
  predicate Parsed(r: Outcome, v: Value, end: nat) {
    r == match v case Fault => Trap case Num(n) => Done(n, end)
  }

  // Parsing went on with the product's loop from `end`.
  ghost predicate ToProductLoop(buf: Buffer, r: Outcome, v: Value, end: nat) {
    end <= End(buf) && r == match v case Fault => Trap case Num(n) => ProductLoop(buf, end, n)
  }

  ghost predicate ToSumLoop(buf: Buffer, r: Outcome, v: Value, end: nat) {
    end <= End(buf) && r == match v case Fault => Trap case Num(n) => SumLoop(buf, end, n)
  }

  lemma NumberParses(buf: Buffer, i: nat, t: Term)
    requires t.Number? && Holds(buf, i, TermText(t)) && !IsDigit(buf[i + |TermText(t)|])
    ensures Parsed(ParseTerm(buf, i), TermValue(t), i + |TermText(t)|)
  {
    var Number(blanks, first, more) := t;
    var ds := [first] + more;
    HoldsConcat(buf, i, Blanks(blanks), DigitText(ds));
    assert buf[i + blanks] == buf[i + blanks..i + blanks + |ds|][0] == DigitChar(first);
    SkipsBlanks(buf, i, blanks);
    DigitsParse(buf, i + blanks, ds, 0);
  }

  lemma NegationStep(buf: Buffer, i: nat, n: nat, v: Value, end: nat)
    requires i <= End(buf) && Follows(buf, i, n, '-') && Parsed(ParseTerm(buf, i + n + 1), v, end)
    ensures Parsed(ParseTerm(buf, i), if v.Fault? then Fault else Num(W32(-v.n)), end)
  {}

  // The sum between parentheses runs into the closing one.
  lemma ParenStep(buf: Buffer, i: nat, n: nat, v: Value, inner: nat, close: nat)
    requires i <= End(buf) && Follows(buf, i, n, '(')
    requires ToSumLoop(buf, ParseSum(buf, i + n + 1), v, inner) && Follows(buf, inner, close, ')') && v != Num(ERROR)
    ensures Parsed(ParseTerm(buf, i), v, inner + close + 1)
  {
    SumLoopSkips(buf, inner);
  }

  lemma FactorStep(buf: Buffer, i: nat, x: Value, mid: nat, n: nat, op: char, y: Value, end: nat)
    requires i <= End(buf) && (op == '*' || op == '/')
    requires ToProductLoop(buf, ParseProduct(buf, i), x, mid) && Follows(buf, mid, n, op)
    requires end <= End(buf) && Parsed(ParseTerm(buf, mid + n + 1), y, end) && y != Num(ERROR)
    ensures ToProductLoop(buf, ParseProduct(buf, i), Apply(op, x, y), end)
  {}

  lemma AddendStep(buf: Buffer, i: nat, x: Value, mid: nat, n: nat, op: char, y: Value, end: nat)
    requires i <= End(buf) && (op == '+' || op == '-')
    requires ToSumLoop(buf, ParseSum(buf, i), x, mid) && Follows(buf, mid, n, op)
    requires end <= End(buf) && EndsProduct(buf, end)
    requires ToProductLoop(buf, ParseProduct(buf, mid + n + 1), y, end) && y != Num(ERROR)
    ensures ToSumLoop(buf, ParseSum(buf, i), Apply(op, x, y), end)
  {
    SumLoopSkips(buf, end);
  }

  lemma FirstFactorStep(buf: Buffer, i: nat, v: Value, end: nat)
    requires i <= End(buf) && end <= End(buf) && v != Num(ERROR)
    requires Parsed(ParseTerm(buf, i), v, end)
    ensures ToProductLoop(buf, ParseProduct(buf, i), v, end)
  {}

  // A first product, not an error, hands over to the sum's loop.
  lemma FirstAddendStep(buf: Buffer, i: nat, v: Value, end: nat)
    requires i <= End(buf) && end <= End(buf) && EndsProduct(buf, end) && v != Num(ERROR)
    requires ToProductLoop(buf, ParseProduct(buf, i), v, end)
    ensures ToSumLoop(buf, ParseSum(buf, i), v, end)
  {
    SumLoopSkips(buf, end);
  }

  // Blanks before the loop make no difference to it.
  lemma SumLoopSkips(buf: Buffer, i: nat)
    requires i <= End(buf)
    ensures SkipBlanks(buf, SkipBlanks(buf, i)) == SkipBlanks(buf, i)
    ensures forall num :: SumLoop(buf, SkipBlanks(buf, i), num) == SumLoop(buf, i, num)
  {}

  // A negated term's pieces.
  lemma NegatedAt(buf: Buffer, i: nat, t: Term)
    requires t.Negated? && Holds(buf, i, TermText(t))
    ensures Follows(buf, i, t.blanks, '-') && Holds(buf, i + t.blanks + 1, TermText(t.t))
    ensures i + |TermText(t)| == i + t.blanks + 1 + |TermText(t.t)|
  {
    assert TermText(t) == "" + Blanks(t.blanks) + "-" + TermText(t.t);
    OperandsAt(buf, i, "", t.blanks, "-", TermText(t.t));
  }

  // A parenthesized sum's pieces.
  lemma ParenAt(buf: Buffer, i: nat, t: Term)
    requires t.Paren? && Holds(buf, i, TermText(t))
    ensures var inner := i + t.blanks + 1 + |SumText(t.s)|;
            && Follows(buf, i, t.blanks, '(') && Holds(buf, i + t.blanks + 1, SumText(t.s))
            && Follows(buf, inner, t.close, ')') && inner + t.close + 1 == i + |TermText(t)|
  {
    hide SumText, Blanks, Holds, Follows;
    var text := SumText(t.s) + Blanks(t.close) + ")";
    assert TermText(t) == "" + Blanks(t.blanks) + "(" + text;
    OperandsAt(buf, i, "", t.blanks, "(", text);
    assert text == text + "";
    OperandsAt(buf, i + t.blanks + 1, SumText(t.s), t.close, ")", "");
  }

  lemma {:induction false} TermParses(buf: Buffer, i: nat, t: Term)
    requires Holds(buf, i, TermText(t)) && !IsDigit(buf[i + |TermText(t)|]) && TermChecked(t)
    ensures Parsed(ParseTerm(buf, i), TermValue(t), i + |TermText(t)|)
    decreases t
  {
    hide ParseTerm, ParseSum, Holds, Follows, ToSumLoop, Parsed, TermText, SumText;
    match t
    case Number(_, _, _) => NumberParses(buf, i, t);
    case Negated(blanks, u) =>
      NegatedAt(buf, i, t);
      TermParses(buf, i + blanks + 1, u);
      NegationStep(buf, i, blanks, TermValue(u), i + |TermText(t)|);
    case Paren(blanks, s, close) =>
      var inner := i + blanks + 1 + |SumText(s)|;
      ParenAt(buf, i, t);
      FollowsEndsProduct(buf, inner, close, ')');
      SumParses(buf, i + blanks + 1, s);
      ParenStep(buf, i, blanks, SumValue(s), inner, close);
  }

  lemma FollowsEndsProduct(buf: Buffer, i: nat, n: nat, op: char)
    requires Follows(buf, i, n, op)
    ensures i <= End(buf) && !IsDigit(buf[i])
    ensures op != '*' && op != '/' ==> EndsProduct(buf, i)
  {}

  // The pieces of a product of two or more terms, and of a sum of two or more products.
  lemma FactorsAt(buf: Buffer, i: nat, p: Product)
    requires p.By? && Holds(buf, i, ProductText(p))
    ensures var mid := i + |ProductText(p.p)|;
            && Holds(buf, i, ProductText(p.p)) && Follows(buf, mid, p.blanks, p.op)
            && Holds(buf, mid + p.blanks + 1, TermText(p.t))
            && i + |ProductText(p)| == mid + p.blanks + 1 + |TermText(p.t)|
  {
    hide Holds, Follows, TermText, Blanks, ProductText;
    FactorText(p);
    OperandsAt(buf, i, ProductText(p.p), p.blanks, [p.op], TermText(p.t));
  }

  lemma FactorText(p: Product)
    requires p.By?
    ensures ProductText(p) == ProductText(p.p) + Blanks(p.blanks) + [p.op] + TermText(p.t)
  {}

  lemma AddendsAt(buf: Buffer, i: nat, s: Sum)
    requires s.Add? && Holds(buf, i, SumText(s))
    ensures var mid := i + |SumText(s.s)|;
            && Holds(buf, i, SumText(s.s)) && Follows(buf, mid, s.blanks, s.op)
            && Holds(buf, mid + s.blanks + 1, ProductText(s.p))
            && i + |SumText(s)| == mid + s.blanks + 1 + |ProductText(s.p)|
  {
    hide Holds, Follows, ProductText, Blanks, SumText;
    AddendText(s);
    OperandsAt(buf, i, SumText(s.s), s.blanks, [s.op], ProductText(s.p));
  }

  lemma AddendText(s: Sum)
    requires s.Add?
    ensures SumText(s) == SumText(s.s) + Blanks(s.blanks) + [s.op] + ProductText(s.p)
  {}

  lemma TextOfOneTerm(t: Term)
    ensures ProductText(Only(t)) == TermText(t)
  {}

  lemma TextOfOneProduct(p: Product)
    ensures SumText(Just(p)) == ProductText(p)
  {}

  lemma {:induction false} ProductParses(buf: Buffer, i: nat, p: Product)
    requires Holds(buf, i, ProductText(p)) && !IsDigit(buf[i + |ProductText(p)|]) && ProductChecked(p)
    ensures ToProductLoop(buf, ParseProduct(buf, i), ProductValue(p), i + |ProductText(p)|)
    decreases p
  {
    hide ParseTerm, ParseProduct, Follows, ToProductLoop, Parsed, ProductText, TermText, SumText;
    match p
    case Only(t) =>
      TextOfOneTerm(t);
      TermParses(buf, i, t);
      FirstFactorStep(buf, i, TermValue(t), i + |ProductText(p)|);
    case By(q, blanks, op, t) =>
      FactorsAt(buf, i, p);
      var mid := i + |ProductText(q)|;
      FollowsEndsProduct(buf, mid, blanks, op);
      ProductParses(buf, i, q);
      TermParses(buf, mid + blanks + 1, t);
      FactorStep(buf, i, ProductValue(q), mid, blanks, op, TermValue(t), i + |ProductText(p)|);
  }

  lemma {:induction false} SumParses(buf: Buffer, i: nat, s: Sum)
    requires Holds(buf, i, SumText(s)) && EndsProduct(buf, i + |SumText(s)|) && SumChecked(s)
    ensures ToSumLoop(buf, ParseSum(buf, i), SumValue(s), i + |SumText(s)|)
    decreases s
  {
    hide ParseProduct, ParseSum, Holds, Follows, ToSumLoop, ToProductLoop, ProductText, TermText, SumText;
    match s
    case Just(p) =>
      TextOfOneProduct(p);
      ProductParses(buf, i, p);
      FirstAddendStep(buf, i, ProductValue(p), i + |SumText(s)|);
    case Add(r, blanks, op, p) =>
      AddendsAt(buf, i, s);
      var mid := i + |SumText(r)|;
      FollowsEndsProduct(buf, mid, blanks, op);
      SumParses(buf, i, r);
      ProductParses(buf, mid + blanks + 1, p);
      AddendStep(buf, i, SumValue(r), mid, blanks, op, ProductValue(p), i + |SumText(s)|);
  }

  /** Every text of the grammar, with any blanks between its tokens: the parser computes its value
      (left-associative, truncating division) and stops at the end of the text, or faults exactly
      when the expression divides by zero, provided no operand it compares with ERROR is -1. */
  lemma PrintedSumsEvaluate(buf: Buffer, s: Sum)
    requires buf[..End(buf)] == SumText(s) && SumChecked(s)
    ensures Parsed(ParseSum(buf, 0), SumValue(s), End(buf))
  {
    assert buf[0..0 + |SumText(s)|] == SumText(s);
    SumParses(buf, 0, s);
  }

  // ---------- Exact values ----------

  // The value in the integers.
  function Exactly(op: char, x: Value, y: Value): Value {
    if x.Fault? || y.Fault? then Fault
    else if op == '+' then Num(x.n + y.n)
    else if op == '-' then Num(x.n - y.n)
    else if op == '*' then Num(x.n * y.n)
    else if y.n == 0 then Fault
    else Num(Quotient(x.n, y.n))
  }

  function ExactDecimal(ds: seq<DigitValue>, num: nat): nat {
    if ds == [] then num else ExactDecimal(ds[1..], num * 10 + ds[0])
  }

  function ExactTerm(t: Term): Value {
    match t
    case Number(_, first, more) => Num(ExactDecimal([first] + more, 0))
    case Negated(_, u) => if ExactTerm(u).Fault? then Fault else Num(-ExactTerm(u).n)
    case Paren(_, s, _) => ExactSum(s)
  }

  function ExactProduct(p: Product): Value {
    match p
    case Only(t) => ExactTerm(t)
    case By(q, _, op, t) => Exactly(op, ExactProduct(q), ExactTerm(t))
  }

  function ExactSum(s: Sum): Value {
    match s
    case Just(p) => ExactProduct(p)
    case Add(r, _, op, p) => Exactly(op, ExactSum(r), ExactProduct(p))
  }

  predicate InRange(v: Value) {
    v.Fault? || -0x8000_0000 <= v.n < 0x8000_0000
  }

  // No subexpression overflows 32 bits.
  predicate TermFits(t: Term) {
    InRange(ExactTerm(t)) &&
    match t
    case Number(_, _, _) => true
    case Negated(_, u) => TermFits(u)
    case Paren(_, s, _) => SumFits(s)
  }

  predicate ProductFits(p: Product) {
    InRange(ExactProduct(p)) &&
    match p
    case Only(t) => TermFits(t)
    case By(q, _, _, t) => ProductFits(q) && TermFits(t)
  }

  predicate SumFits(s: Sum) {
    InRange(ExactSum(s)) &&
    match s
    case Just(p) => ProductFits(p)
    case Add(r, _, _, p) => SumFits(r) && ProductFits(p)
  }

  lemma {:induction false} DecimalIsExact(ds: seq<DigitValue>, num: nat)
    requires ExactDecimal(ds, num) < 0x8000_0000
    ensures num <= ExactDecimal(ds, num) && Decimal(ds, num) == ExactDecimal(ds, num)
    decreases ds
  {
    if ds == [] {
    } else {
      DecimalGrows(ds[1..], num * 10 + ds[0]);
      DecimalIsExact(ds[1..], num * 10 + ds[0]);
    }
  }

  lemma {:induction false} DecimalGrows(ds: seq<DigitValue>, num: nat)
    ensures num <= ExactDecimal(ds, num)
    decreases ds
  {
    if ds != [] { DecimalGrows(ds[1..], num * 10 + ds[0]); }
  }

  lemma ApplyIsExact(op: char, x: Value, y: Value)
    requires InRange(Exactly(op, x, y))
    ensures Apply(op, x, y) == Exactly(op, x, y)
  {
    hide W32, Quotient;
    if x.Num? && y.Num? && (op == '+' || op == '-' || op == '*' || y.n != 0) {
      W32Fits(Exactly(op, x, y).n);
    }
  }

  lemma W32Fits(x: int)
    ensures -0x8000_0000 <= x < 0x8000_0000 ==> W32(x) == x
  {}

  lemma {:induction false} TermIsExact(t: Term)
    requires TermFits(t)
    ensures TermValue(t) == ExactTerm(t)
    decreases t
  {
    match t
    case Number(_, first, more) => DecimalIsExact([first] + more, 0);
    case Negated(_, u) => TermIsExact(u);
    case Paren(_, s, _) => SumIsExact(s);
  }

  lemma {:induction false} ProductIsExact(p: Product)
    requires ProductFits(p)
    ensures ProductValue(p) == ExactProduct(p)
    decreases p
  {
    match p
    case Only(t) => TermIsExact(t);
    case By(q, _, op, t) =>
      ProductIsExact(q);
      TermIsExact(t);
      ApplyIsExact(op, ExactProduct(q), ExactTerm(t));
  }

  /** Without overflow the 32-bit value is the value in the integers. */
  lemma {:induction false} SumIsExact(s: Sum)
    requires SumFits(s)
    ensures SumValue(s) == ExactSum(s)
    decreases s
  {
    match s
    case Just(p) => ProductIsExact(p);
    case Add(r, _, op, p) =>
      SumIsExact(r);
      ProductIsExact(p);
      ApplyIsExact(op, ExactSum(r), ExactProduct(p));
  }
}
