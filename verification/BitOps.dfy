/** Bitwise operations on unsigned words, bit by bit, and what they amount to on aligned
    addresses and power-of-two alignments. */
module BitOps {
  import opened Arithmetic

  // Bitwise OR of two unsigned words.
  function Or(x: nat, y: nat): nat
    decreases x + y
  {
    if x == 0 then y
    else if y == 0 then x
    else 2 * Or(x / 2, y / 2) + if x % 2 == 1 || y % 2 == 1 then 1 else 0
  }

  // Bit k of an unsigned word.
  predicate Bit(x: nat, k: nat) {
    if k == 0 then x % 2 == 1 else Bit(x / 2, k - 1)
  }

  lemma OrHalves(x: nat, y: nat)
    ensures Or(x, y) == 2 * Or(x / 2, y / 2) + if x % 2 == 1 || y % 2 == 1 then 1 else 0
  {
    OrZero(x / 2);
    OrZero(y / 2);
  }

  lemma OrZero(x: nat)
    ensures Or(x, 0) == x && Or(0, x) == x
  {}

  /** OR has a bit exactly where either word has it, and x & ~m where x has it and m has not. */
  lemma {:induction false} OrJoinsBits(x: nat, y: nat, k: nat)
    ensures Bit(Or(x, y), k) <==> Bit(x, k) || Bit(y, k)
    decreases k
  {
    hide Or;
    OrHalves(x, y);
    if k > 0 { OrJoinsBits(x / 2, y / 2, k - 1); }
  }

  lemma {:induction false} AndNotClearsBits(x: nat, m: nat, k: nat)
    ensures Bit(AndNot(x, m), k) <==> Bit(x, k) && !Bit(m, k)
    decreases k
  {
    NoBits(k);
    if k > 0 { AndNotClearsBits(x / 2, m / 2, k - 1); }
  }

  lemma {:induction false} NoBits(k: nat)
    ensures !Bit(0, k)
  {
    if k > 0 { NoBits(k - 1); }
  }

  function Pow2(k: nat): nat {
    if k == 0 then 1 else 2 * Pow2(k - 1)
  }

  // Flags below the alignment of an address do not disturb it.
  lemma {:induction false} OrBelowAlignment(x: nat, y: nat, k: nat)
    requires y < Pow2(k)
    ensures Or(x * Pow2(k), y) == x * Pow2(k) + y
  {
    if k == 0 || x == 0 || y == 0 {
    } else {
      var half := x * Pow2(k - 1);
      assert x * Pow2(k) == 2 * half;
      OrBelowAlignment(x, y / 2, k - 1);
    }
  }

  // x & ~m.
  function AndNot(x: nat, m: nat): nat
    decreases x
  {
    if x == 0 then 0
    else 2 * AndNot(x / 2, m / 2) + if x % 2 == 1 && m % 2 == 0 then 1 else 0
  }

  lemma {:induction false} AndNotZero(x: nat)
    ensures AndNot(x, 0) == x
    decreases x
  {
    if x == 0 {
    } else {
      AndNotZero(x / 2);
    }
  }

  lemma ModDouble(x: nat, m: nat)
    requires m > 0
    ensures x % (2 * m) == 2 * (x / 2 % m) + x % 2
  {
    var q, r := x / 2 / m, x / 2 % m;
    assert x / 2 == m * q + r;
    assert 2 * (m * q) == 2 * m * q;
    RemainderUnique(x, 2 * m, q, 2 * r + x % 2);
  }

  // Masking with ~(a - 1), for a power of two a, rounds down to a multiple of a.
  lemma {:induction false} MaskRoundsDown(x: nat, k: nat)
    ensures Pow2(k) >= 1 && AndNot(x, Pow2(k) - 1) == x - x % Pow2(k)
    decreases k
  {
    if k == 0 {
      AndNotZero(x);
    } else {
      MaskRoundsDown(x / 2, k - 1);
      var m := Pow2(k - 1);
      ModDouble(x, m);
      assert (Pow2(k) - 1) / 2 == m - 1 && (Pow2(k) - 1) % 2 == 1;
    }
  }
}
