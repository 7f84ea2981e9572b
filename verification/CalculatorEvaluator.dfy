/** The calculator's parse functions, moving a cursor over the buffer, each proved against the
    function of the same name in module Calculator. */
module CalculatorEvaluator {
  import opened Calculator

  class Evaluator {
    const buffer: Buffer
    var scan: nat
    var parseNum: int

    constructor (buffer: Buffer)
      ensures this.buffer == buffer && scan == 0
    {
      this.buffer := buffer;
      scan := 0;
      parseNum := 0;
    }

    ghost predicate Valid()
      reads this
    {
      scan <= End(buffer)
    }

    // The call faulted, or returned the outcome's number and left the cursor where it says.
    ghost predicate Returned(r: Outcome, v: Value)
      reads this
    {
      Valid() && match r case Trap => v == Fault case Done(num, j) => v == Num(num) && scan == j
    }

    method MatchChar(c: char) returns (matched: bool)
      requires Valid() && c != NUL
      modifies this`scan
      ensures Valid() && matched == (buffer[old(scan)] == c)
      ensures scan == if matched then old(scan) + 1 else old(scan)
    {
      if c == buffer[scan] {
        scan := scan + 1;
        return true;
      }
      return false;
    }

    method IsDigit(num: int) returns (digit: bool, next: int)
      requires Valid()
      modifies this`scan
      ensures Valid() && digit == Calculator.IsDigit(buffer[old(scan)])
      ensures scan == if digit then old(scan) + 1 else old(scan)
      ensures next == if digit then W32(num * 10 + Digit(buffer[old(scan)])) else num
    {
      if '0' <= buffer[scan] <= '9' {
        next := W32(num * 10 + Digit(buffer[scan]));
        scan := scan + 1;
        return true, next;
      }
      return false, num;
    }

    method SkipAllBlanks()
      requires Valid()
      modifies this`scan
      ensures Valid() && scan == SkipBlanks(buffer, old(scan))
    {
      var blank := MatchChar(' ');
      while blank
        invariant Valid() && scan == old(scan) + (if blank || scan > old(scan) then scan - old(scan) else 0)
        invariant SkipBlanks(buffer, scan) == SkipBlanks(buffer, old(scan))
        invariant !blank ==> buffer[scan] != ' '
        decreases End(buffer) - scan, blank
      {
        blank := MatchChar(' ');
      }
    }

    method ParseNumber() returns (num: int)
      requires Valid()
      modifies this
      ensures Returned(Calculator.ParseNumber(buffer, old(scan)), Num(num))
    {
      parseNum := 0;
      var digit;
      digit, parseNum := IsDigit(parseNum);
      if digit {
        while digit
          invariant Valid()
          invariant ParseDigits(buffer, scan, parseNum) == ParseDigits(buffer, old(scan), 0)
          invariant !digit ==> !Calculator.IsDigit(buffer[scan])
          decreases End(buffer) - scan, digit
        {
          digit, parseNum := IsDigit(parseNum);
        }
        return parseNum;
      }
      return ERROR;
    }

    method ParseTerm() returns (v: Value)
      requires Valid()
      modifies this
      ensures Returned(Calculator.ParseTerm(buffer, old(scan)), v)
      decreases End(buffer) - scan, 0
    {
      SkipAllBlanks();
      var open := MatchChar('(');
      if open {
        v := ParseSum();
        if v == Fault || v == Num(ERROR) { return; }
        SkipAllBlanks();
        var close := MatchChar(')');
        if !close { return Num(ERROR); }
        return;
      }
      var minus := MatchChar('-');
      if minus {
        v := ParseTerm();
        if v == Fault { return; }
        return Num(W32(-v.n));
      }
      var num := ParseNumber();
      return Num(num);
    }

    method ParseProduct() returns (v: Value)
      requires Valid()
      modifies this
      ensures Returned(Calculator.ParseProduct(buffer, old(scan)), v)
      decreases End(buffer) - scan, 2
    {
      hide W32, Quotient, Calculator.ParseTerm, Calculator.SkipBlanks, End;
      v := ParseTerm();
      if v == Fault || v == Num(ERROR) { return; }
      var num := v.n;
      while true
        invariant Valid() && old(scan) <= scan
        invariant Calculator.ParseProduct(buffer, old(scan)) == ProductLoop(buffer, scan, num)
        decreases End(buffer) - scan
      {
        SkipAllBlanks();
        var times := MatchChar('*');
        if times {
          v := ParseTerm();
          if v == Fault || v == Num(ERROR) { return; }
          num := W32(num * v.n);
          continue;
        }
        var over := MatchChar('/');
        if !over { return Num(num); }
        v := ParseTerm();
        if v == Fault || v == Num(ERROR) { return; }
        if v.n == 0 { return Fault; }
        num := W32(Quotient(num, v.n));
      }
    }

    method ParseSum() returns (v: Value)
      requires Valid()
      modifies this
      ensures Returned(Calculator.ParseSum(buffer, old(scan)), v)
      decreases End(buffer) - scan, 4
    {
      hide W32, Calculator.ParseProduct, Calculator.SkipBlanks, End;
      v := ParseProduct();
      if v == Fault || v == Num(ERROR) { return; }
      var num := v.n;
      while true
        invariant Valid() && old(scan) <= scan
        invariant Calculator.ParseSum(buffer, old(scan)) == SumLoop(buffer, scan, num)
        decreases End(buffer) - scan
      {
        SkipAllBlanks();
        var plus := MatchChar('+');
        if plus {
          v := ParseProduct();
          if v == Fault || v == Num(ERROR) { return; }
          num := W32(num + v.n);
          continue;
        }
        var minus := MatchChar('-');
        if !minus { return Num(num); }
        v := ParseProduct();
        if v == Fault || v == Num(ERROR) { return; }
        num := W32(num - v.n);
      }
    }
  }
}
