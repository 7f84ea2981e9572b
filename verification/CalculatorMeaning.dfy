/** What the calculator's values mean, told apart from how they are computed: truncating division,
    sums of signed products, decimal digits, and wrapping that happens only once. */
module CalculatorMeaning {
  import opened Arithmetic
  import opened Calculator

  // ---------- Division ----------

  // q is a divided by b and truncated: what is left over is smaller than b and has a's sign.
  predicate Truncates(a: int, b: int, q: int) {
    var left := a - q * b;
    Abs(left) < Abs(b) && (left != 0 ==> (left > 0 <==> a > 0))
  }

  lemma QuotientTruncates(a: int, b: int)
    requires b != 0
    ensures Truncates(a, b, Quotient(a, b))
  {
    hide Quotient;
    var k, left := Divided(Abs(a), Abs(b));
    TimesDivisor(a, b, k);
    LeftOver(a, b, Quotient(a, b), k * Abs(b), left);
  }

  lemma LeftOver(a: int, b: int, q: int, product: int, left: int)
    requires Abs(a) == product + left && 0 <= product && 0 <= left < Abs(b)
    requires q * b == if a >= 0 then product else -product
    ensures Truncates(a, b, q)
  {}

  lemma Divided(m: nat, d: nat) returns (k: int, left: int)
    requires d > 0
    ensures m / d == k && m == k * d + left && 0 <= left < d && 0 <= k && 0 <= k * d
  {
    k, left := m / d, m % d;
    MulMonotone(k, 0, d);
  }

  lemma TimesDivisor(a: int, b: int, k: int)
    requires b != 0 && Abs(a) / Abs(b) == k
    ensures Quotient(a, b) * b == if a >= 0 then k * Abs(b) else -(k * Abs(b))
  {
    var d: int := Abs(b);
    SignsMultiply(k, d);
    assert Quotient(a, b) == k || Quotient(a, b) == -k;
    assert b == d || b == -d;
  }

  lemma SignsMultiply(k: int, d: int)
    ensures (-k) * d == -(k * d) && k * (-d) == -(k * d) && (-k) * (-d) == k * d
  {}

  // There is only one such quotient.
  lemma TruncatedIsUnique(a: int, b: int, q: int, r: int)
    requires b != 0 && Truncates(a, b, q) && Truncates(a, b, r)
    ensures q == r
  {
    assert (a - q * b) - (a - r * b) == (r - q) * b;
    if q != r { ProductIsLarge(r - q, b); }
  }

  lemma ProductIsLarge(k: int, b: int)
    requires k != 0
    ensures Abs(k * b) >= Abs(b)
  {
    var n: int, d: int := Abs(k), Abs(b);
    SignsMultiply(n, d);
    MulMonotone(d, 1, n);
    assert (k == n || k == -n) && (b == d || b == -d);
  }

  /** A product ending in a division is the truncated quotient of what comes before it and its last
      term, and a fault exactly when that term is zero or there was a fault before. */
  lemma DivisionTruncates(p: Product)
    requires p.By? && p.op == '/'
    ensures ExactProduct(p).Fault? <==> ExactProduct(p.p).Fault? || ExactTerm(p.t).Fault? || ExactTerm(p.t).n == 0
    ensures ExactProduct(p).Num? ==> Truncates(ExactProduct(p.p).n, ExactTerm(p.t).n, ExactProduct(p).n)
  {
    hide Quotient;
    var x, y := ExactProduct(p.p), ExactTerm(p.t);
    if x.Num? && y.Num? && y.n != 0 { QuotientTruncates(x.n, y.n); }
  }

  // The same of the 32-bit values. Only the least of them divided by -1 does not fit, and the parser
  // takes a divisor of -1 for an error.
  lemma DivisionTruncatesIn32Bits(p: Product)
    requires p.By? && p.op == '/' && InRange(ProductValue(p.p)) && TermValue(p.t) != Num(ERROR)
    ensures ProductValue(p).Fault? <==> ProductValue(p.p).Fault? || TermValue(p.t).Fault? || TermValue(p.t).n == 0
    ensures ProductValue(p).Num? ==> Truncates(ProductValue(p.p).n, TermValue(p.t).n, ProductValue(p).n)
  {
    hide Quotient, W32;
    var x, y := ProductValue(p.p), TermValue(p.t);
    if x.Num? && y.Num? && y.n != 0 {
      QuotientTruncates(x.n, y.n);
      QuotientFits(x.n, y.n);
      W32Fits(Quotient(x.n, y.n));
    }
  }

  lemma QuotientFits(a: int, b: int)
    requires b != 0 && b != -1 && -0x8000_0000 <= a < 0x8000_0000
    ensures -0x8000_0000 <= Quotient(a, b) < 0x8000_0000
  {
    var k, left := Divided(Abs(a), Abs(b));
    if b != 1 { MulMonotone(k, 2, Abs(b)); }
  }

  // ---------- Products and sums ----------

  /** Dividing by what was multiplied by gives back what there was. */
  lemma DivisionUndoesMultiplication(q: Product, m: nat, n: nat, t: Term)
    requires ExactProduct(q).Num? && ExactTerm(t).Num? && ExactTerm(t).n != 0
    ensures ExactProduct(By(By(q, m, '*', t), n, '/', t)) == ExactProduct(q)
  {
    hide Quotient;
    var x, y := ExactProduct(q).n, ExactTerm(t).n;
    QuotientTruncates(x * y, y);
    TruncatedIsUnique(x * y, y, Quotient(x * y, y), x);
  }

  // One times anything is itself, and products distribute over sums.
  lemma MultiplicationDistributes(t: Term, r: Sum, p: Product, m: nat, n: nat, close: nat)
    requires ExactTerm(t).Num? && ExactSum(r).Num? && ExactProduct(p).Num?
    ensures ExactProduct(By(Only(Number(0, 1, [])), n, '*', t)) == ExactTerm(t)
    ensures var x := ExactProduct(By(Only(Paren(0, r, close)), n, '*', t));
            var y := ExactProduct(By(p, n, '*', t));
            var both := ExactProduct(By(Only(Paren(0, Add(r, m, '+', p), close)), n, '*', t));
            x.Num? && y.Num? && both == Num(x.n + y.n)
  {
    hide ExactProduct, ExactTerm, ExactSum;
    var one, both := Number(0, 1, []), Add(r, m, '+', p);
    OneIsOne();
    OneTerm(one);
    ParenIs(r, close);
    ParenIs(both, close);
    PlusIs(r, m, p);
    TimesIs(Only(one), n, t);
    TimesIs(Only(Paren(0, r, close)), n, t);
    TimesIs(p, n, t);
    TimesIs(Only(Paren(0, both, close)), n, t);
    Distributes(ExactSum(r).n, ExactProduct(p).n, ExactTerm(t).n);
  }

  lemma TimesIs(q: Product, n: nat, t: Term)
    requires ExactProduct(q).Num? && ExactTerm(t).Num?
    ensures ExactProduct(By(q, n, '*', t)) == Num(ExactProduct(q).n * ExactTerm(t).n)
  {}

  lemma PlusIs(r: Sum, m: nat, p: Product)
    requires ExactSum(r).Num? && ExactProduct(p).Num?
    ensures ExactSum(Add(r, m, '+', p)) == Num(ExactSum(r).n + ExactProduct(p).n)
  {}

  lemma ParenIs(r: Sum, close: nat)
    ensures ExactProduct(Only(Paren(0, r, close))) == ExactSum(r)
  {}

  lemma OneIsOne()
    ensures ExactTerm(Number(0, 1, [])) == Num(1)
  {
    assert [1] + [] == [1] && [1][1..] == [];
    assert ExactDecimal([], 1) == 1;
  }

  lemma Distributes(x: int, y: int, z: int)
    ensures (x + y) * z == x * z + y * z
  {}

  // The exact value of each product of a sum, with the sign before it.
  function Signed(s: Sum): seq<int>
    requires ExactSum(s).Num?
  {
    match s
    case Just(p) => [ExactProduct(p).n]
    case Add(r, _, op, p) => Signed(r) + [if op == '-' then -ExactProduct(p).n else ExactProduct(p).n]
  }

  function Total(xs: seq<int>): int {
    if xs == [] then 0 else xs[0] + Total(xs[1..])
  }

  lemma {:induction false} TotalOfAppended(xs: seq<int>, x: int)
    ensures Total(xs + [x]) == Total(xs) + x
  {
    if xs != [] {
      assert (xs + [x])[1..] == xs[1..] + [x];
      TotalOfAppended(xs[1..], x);
    } else {
      assert [x][1..] == [];
    }
  }

  /** A sum's value is the total of its products, each taken with the sign before it: subtraction
      associates to the left. */
  lemma {:induction false} SumIsTotal(s: Sum)
    requires ExactSum(s).Num?
    ensures ExactSum(s).n == Total(Signed(s))
    decreases s
  {
    match s
    case Just(p) =>
      assert [ExactProduct(p).n][1..] == [];
    case Add(r, _, op, p) =>
      SumIsTotal(r);
      TotalOfAppended(Signed(r), if op == '-' then -ExactProduct(p).n else ExactProduct(p).n);
  }

  // A minus sign undone by another, and cancelled by what it negates.
  lemma NegationCancels(t: Term, m: nat, n: nat)
    ensures ExactTerm(Negated(m, Negated(n, t))) == ExactTerm(t)
    ensures ExactTerm(t).Num? ==> ExactSum(Add(Just(Only(t)), m, '+', Only(Negated(n, t)))) == Num(0)
  {
    OneTerm(t);
    OneTerm(Negated(n, t));
  }

  lemma OneTerm(t: Term)
    ensures ExactProduct(Only(t)) == ExactTerm(t) && ExactSum(Just(Only(t))) == ExactTerm(t)
  {}

  // ---------- Numbers ----------

  /** A digit written after others makes ten times their number and itself. */
  lemma {:induction false} DigitAppended(ds: seq<DigitValue>, d: DigitValue, num: nat)
    ensures ExactDecimal(ds + [d], num) == 10 * ExactDecimal(ds, num) + d
    decreases ds
  {
    if ds == [] {
      assert ([d])[1..] == [];
    } else {
      assert (ds + [d])[1..] == ds[1..] + [d];
      DigitAppended(ds[1..], d, num * 10 + ds[0]);
    }
  }

  // ---------- Wrapping ----------

  const MODULUS: int := 0x1_0000_0000

  // x and y differ by a multiple of 2^32.
  ghost predicate Congruent(x: int, y: int) {
    exists k: int :: x == y + k * MODULUS
  }

  lemma W32IsCongruent(x: int)
    ensures -0x8000_0000 <= W32(x) < 0x8000_0000 && Congruent(x, W32(x))
  {
    assert x == W32(x) + ((x + 0x8000_0000) / MODULUS) * MODULUS;
  }

  lemma CongruentIsEqual(x: int, y: int)
    requires Congruent(x, y)
    ensures W32(x) == W32(y)
  {
    var k: int :| x == y + k * MODULUS;
    assert (x + 0x8000_0000) % MODULUS == (y + 0x8000_0000) % MODULUS;
  }

  lemma CongruentOperations(x: int, a: int, y: int, b: int)
    requires Congruent(x, a) && Congruent(y, b)
    ensures Congruent(x + y, a + b) && Congruent(x - y, a - b) && Congruent(x * y, a * b)
  {
    var k: int :| x == a + k * MODULUS;
    var l: int :| y == b + l * MODULUS;
    assert x + y == a + b + (k + l) * MODULUS;
    assert x - y == a - b + (k - l) * MODULUS;
    Multiplied(a, k, b, l);
    assert x * y == a * b + (a * l + k * b + k * l * MODULUS) * MODULUS;
  }

  lemma Multiplied(a: int, k: int, b: int, l: int)
    ensures (a + k * MODULUS) * (b + l * MODULUS) == a * b + (a * l + k * b + k * l * MODULUS) * MODULUS
  {}

  // The 32-bit value is the exact one, wrapped.
  ghost predicate WrapsTo(v: Value, exact: Value) {
    v == if exact.Fault? then Fault else Num(W32(exact.n))
  }

  predicate TermUndivided(t: Term) {
    match t
    case Number(_, _, _) => true
    case Negated(_, u) => TermUndivided(u)
    case Paren(_, s, _) => SumUndivided(s)
  }

  predicate ProductUndivided(p: Product) {
    match p
    case Only(t) => TermUndivided(t)
    case By(q, _, op, t) => op == '*' && ProductUndivided(q) && TermUndivided(t)
  }

  predicate SumUndivided(s: Sum) {
    match s
    case Just(p) => ProductUndivided(p)
    case Add(r, _, _, p) => SumUndivided(r) && ProductUndivided(p)
  }

  lemma ApplyWraps(op: char, v: Value, x: Value, w: Value, y: Value)
    requires WrapsTo(v, x) && WrapsTo(w, y) && (op == '+' || op == '-' || op == '*')
    ensures WrapsTo(Apply(op, v, w), Exactly(op, x, y))
  {
    hide W32;
    if x.Num? && y.Num? {
      W32IsCongruent(x.n);
      W32IsCongruent(y.n);
      CongruentOperations(x.n, v.n, y.n, w.n);
      CongruentIsEqual(Exactly(op, x, y).n, if op == '+' then v.n + w.n else if op == '-' then v.n - w.n else v.n * w.n);
    }
  }

  lemma {:induction false} DecimalWraps(ds: seq<DigitValue>, num: int, exact: nat)
    requires num == W32(exact)
    ensures Decimal(ds, num) == W32(ExactDecimal(ds, exact))
    decreases ds
  {
    hide W32;
    if ds != [] {
      W32IsCongruent(exact);
      assert Congruent(10, 10) && Congruent(ds[0], ds[0]) by { SelfCongruent(10); SelfCongruent(ds[0]); }
      CongruentOperations(exact, num, 10, 10);
      CongruentOperations(exact * 10, num * 10, ds[0], ds[0]);
      CongruentIsEqual(exact * 10 + ds[0], num * 10 + ds[0]);
      DecimalWraps(ds[1..], W32(num * 10 + ds[0]), exact * 10 + ds[0]);
    }
  }

  lemma SelfCongruent(x: int)
    ensures Congruent(x, x)
  {
    assert x == x + 0 * MODULUS;
  }

  lemma {:induction false} TermWraps(t: Term)
    requires TermUndivided(t)
    ensures WrapsTo(TermValue(t), ExactTerm(t))
    decreases t
  {
    hide W32;
    match t
    case Number(_, first, more) =>
      W32Fits(0);
      DecimalWraps([first] + more, 0, 0);
    case Negated(_, u) =>
      TermWraps(u);
      if ExactTerm(u).Num? {
        SelfCongruent(0);
        W32IsCongruent(ExactTerm(u).n);
        CongruentOperations(0, 0, ExactTerm(u).n, TermValue(u).n);
        CongruentIsEqual(-ExactTerm(u).n, -TermValue(u).n);
      }
    case Paren(_, s, _) => SumWraps(s);
  }

  lemma {:induction false} ProductWraps(p: Product)
    requires ProductUndivided(p)
    ensures WrapsTo(ProductValue(p), ExactProduct(p))
    decreases p
  {
    hide Apply, Exactly;
    match p
    case Only(t) => TermWraps(t);
    case By(q, _, op, t) =>
      ProductWraps(q);
      TermWraps(t);
      ApplyWraps(op, ProductValue(q), ExactProduct(q), TermValue(t), ExactTerm(t));
  }

  /** Where nothing is divided the 32-bit value, wrapped at every step, is the exact value wrapped
      once, however often it overflows on the way. */
  lemma {:induction false} SumWraps(s: Sum)
    requires SumUndivided(s)
    ensures WrapsTo(SumValue(s), ExactSum(s))
    decreases s
  {
    hide Apply, Exactly;
    match s
    case Just(p) => ProductWraps(p);
    case Add(r, _, op, p) =>
      SumWraps(r);
      ProductWraps(p);
      ApplyWraps(op, SumValue(r), ExactSum(r), ProductValue(p), ExactProduct(p));
  }

  // ---------- Texts ----------

  function One(d: DigitValue): Term {
    Number(0, d, [])
  }

  lemma OneIs(d: DigitValue)
    ensures TermText(One(d)) == [DigitChar(d)] && TermValue(One(d)) == Num(d) && TermChecked(One(d))
  {
    assert [d][1..] == [] && Decimal([], d) == d;
    assert DigitText([d] + []) == [DigitChar(d)];
  }

  lemma EndOfText(text: string)
    requires NUL !in text
    ensures NUL in text + [NUL] && End(text + [NUL]) == |text| && (text + [NUL])[..|text|] == text
  {
    var n := End(text + [NUL]);
    assert (text + [NUL])[|text|] == NUL;
    assert forall i :: 0 <= i < |text| ==> (text + [NUL])[i] == text[i];
  }

  lemma TextEvaluates(text: string, s: Sum, n: int)
    requires NUL !in text && SumText(s) == text && SumChecked(s) && SumValue(s) == Num(n)
    ensures NUL in text + [NUL] && ParseSum(text + [NUL], 0) == Done(n, |text|)
  {
    hide ParseSum, SumText, SumChecked, SumValue, End;
    EndOfText(text);
    PrintedSumsEvaluate(text + [NUL], s);
  }

  // Seven halves, negated, are -3; nine less five less two is two; parentheses come first.
  lemma HalvesEvaluate()
    ensures NUL in "-7/2" + [NUL] && ParseSum("-7/2" + [NUL], 0) == Done(-3, 4)
  {
    hide ParseSum, SumText, SumChecked, SumValue;
    HalvesText();
    TextEvaluates("-7/2", Halves(), -3);
  }

  lemma LessEvaluates()
    ensures NUL in "9-5-2" + [NUL] && ParseSum("9-5-2" + [NUL], 0) == Done(2, 5)
  {
    hide ParseSum, SumText, SumChecked, SumValue;
    LessText();
    TextEvaluates("9-5-2", Less(), 2);
  }

  lemma TwiceEvaluates()
    ensures NUL in "2*(3+4)" + [NUL] && ParseSum("2*(3+4)" + [NUL], 0) == Done(14, 7)
  {
    hide ParseSum, SumText, SumChecked, SumValue;
    TwiceText();
    TextEvaluates("2*(3+4)", Twice(), 14);
  }

  function Halves(): Sum {
    Just(By(Only(Negated(0, One(7))), 0, '/', One(2)))
  }

  function Less(): Sum {
    Add(Add(Just(Only(One(9))), 0, '-', Only(One(5))), 0, '-', Only(One(2)))
  }

  function Twice(): Sum {
    Just(By(Only(One(2)), 0, '*', Paren(0, Add(Just(Only(One(3))), 0, '+', Only(One(4))), 0)))
  }

  lemma HalvesText()
    ensures SumText(Halves()) == "-7/2" && SumChecked(Halves()) && SumValue(Halves()) == Num(-3)
  {
    OneIs(7);
    OneIs(2);
    assert Blanks(0) == "";
    assert TermText(Negated(0, One(7))) == "-7";
    assert TermValue(Negated(0, One(7))) == Num(-7);
  }

  lemma LessText()
    ensures SumText(Less()) == "9-5-2" && SumChecked(Less()) && SumValue(Less()) == Num(2)
  {
    OneIs(9);
    OneIs(5);
    OneIs(2);
    assert Blanks(0) == "";
    assert SumText(Add(Just(Only(One(9))), 0, '-', Only(One(5)))) == "9-5";
    assert SumValue(Add(Just(Only(One(9))), 0, '-', Only(One(5)))) == Num(4);
  }

  lemma TwiceText()
    ensures SumText(Twice()) == "2*(3+4)" && SumChecked(Twice()) && SumValue(Twice()) == Num(14)
  {
    OneIs(2);
    OneIs(3);
    OneIs(4);
    assert Blanks(0) == "";
    var inner := Add(Just(Only(One(3))), 0, '+', Only(One(4)));
    assert SumText(inner) == "3+4" && SumValue(inner) == Num(7) && SumChecked(inner);
    assert TermText(Paren(0, inner, 0)) == "(3+4)";
  }
}
