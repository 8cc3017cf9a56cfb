/** `&`, `|` and the shifts, bit by bit. */
module Bits {
  import opened NumberTheory

  function And(a: nat, b: nat): nat {
    if a == 0 || b == 0 then 0
    else 2 * And(a / 2, b / 2) + (if a % 2 == 1 && b % 2 == 1 then 1 else 0)
  }

  function Or(a: nat, b: nat): nat
    decreases a + b
  {
    if a == 0 && b == 0 then 0
    else 2 * Or(a / 2, b / 2) + (if a % 2 == 1 || b % 2 == 1 then 1 else 0)
  }

  /** x << k */
  function Shl(x: nat, k: nat): nat { PowPositive(2, k); x * Pow(2, k) }

  /** x >> k */
  function Shr(x: nat, k: nat): nat { PowPositive(2, k); x / Pow(2, k) }

  /** Dividing by two and then by p. */
  lemma DivideTwice(x: nat, p: nat)
    requires p > 0
    ensures (x / 2) / p == x / (2 * p) && x % (2 * p) == 2 * ((x / 2) % p) + x % 2
  {
    var q, r := (x / 2) / p, (x / 2) % p;
    assert 2 * (p * q) == (2 * p) * q;
    ModUnique(x, 2 * p, q, 2 * r + x % 2);
  }

  lemma AndEven(x: nat, y: nat)
    ensures And(x, 2 * y) == 2 * And(x / 2, y)
  {
  }

  /** Masking with m << k clears the low k bits and masks the rest with m. */
  lemma {:induction false} AndShifted(x: nat, m: nat, k: nat)
    ensures And(x, Shl(m, k)) == Shl(And(Shr(x, k), m), k)
    decreases k
  {
    if k > 0 {
      PowPositive(2, k - 1);
      DivideTwice(x, Pow(2, k - 1));
      AndShifted(x / 2, m, k - 1);
      ShlDouble(m, k);
      ShlDouble(And(Shr(x, k), m), k);
      AndEven(x, Shl(m, k - 1));
    }
  }

  lemma ShlDouble(m: nat, k: nat)
    requires k > 0
    ensures Shl(m, k) == 2 * Shl(m, k - 1)
  {
    var p := Pow(2, k - 1);
    assert m * (2 * p) == 2 * (m * p);
  }

  /** Masking with k ones is the remainder. */
  lemma {:induction false} AndOnes(x: nat, k: nat)
    ensures Pow(2, k) > 0 && And(x, Pow(2, k) - 1) == x % Pow(2, k)
    decreases k
  {
    PowPositive(2, k);
    if k > 0 {
      AndOnes(x / 2, k - 1);
      DivideTwice(x, Pow(2, k - 1));
      AndOdd(x, Pow(2, k - 1) - 1);
    }
  }

  lemma AndOdd(x: nat, y: nat)
    ensures And(x, 2 * y + 1) == 2 * And(x / 2, y) + x % 2
  {
  }

  lemma {:induction false} OrZero(m: nat)
    ensures Or(m, 0) == m
  {
    if m > 0 { OrZero(m / 2); }
  }

  /** Or-ing below k cleared bits adds. */
  lemma {:induction false} OrDisjoint(m: nat, k: nat, r: nat)
    requires r < Pow(2, k)
    ensures Or(Shl(m, k), r) == Shl(m, k) + r
    decreases k
  {
    if k == 0 {
      OrZero(m);
    } else {
      ShlDouble(m, k);
      OrDisjoint(m, k - 1, r / 2);
    }
  }

  /** Or-ing keeps both operands' bits and adds none beyond them. */
  lemma {:induction false} OrBounds(a: nat, b: nat, k: nat)
    requires a < Pow(2, k) && b < Pow(2, k)
    ensures a <= Or(a, b) && b <= Or(a, b) < Pow(2, k)
    decreases k
  {
    if k > 0 && a + b > 0 { OrBounds(a / 2, b / 2, k - 1); }
  }

  lemma OrOne(a: nat)
    ensures Or(a, 1) % 2 == 1
  {
    assert Or(a, 1) == 2 * Or(a / 2, 1 / 2) + 1;
  }

  lemma SetLowest(a: nat)
    ensures Or(a, 1) == a + (1 - a % 2)
  {
    OrZero(a / 2);
    assert Or(a, 1) == 2 * Or(a / 2, 1 / 2) + 1;
  }

  /** Setting bit k of a number of k + 1 bits. */
  lemma {:induction false} SetTop(v: nat, k: nat)
    requires v < Pow(2, k + 1)
    ensures Or(v, Pow(2, k)) == if v < Pow(2, k) then v + Pow(2, k) else v
    decreases k
  {
    if k == 0 {
      SetLowest(v);
    } else {
      PowPositive(2, k);
      SetTop(v / 2, k - 1);
    }
  }
}
