/**
  `_is_prime` of os_net/comp_networking/examples/tls_inspect.py. The random draws are an input:
  `secrets.randbelow(n - 3)` is a draw reduced modulo n - 3.
*/
module MillerRabin {
  import opened NumberTheory

  const SMALL_PRIMES: seq<int> := [2, 3, 5, 7, 11, 13, 17, 19, 23, 29, 31, 37]

  /** m = 2^Twos(m) * OddPart(m). */
  function OddPart(m: nat): (d: nat)
    ensures m > 0 ==> d % 2 == 1
  {
    if m > 0 && m % 2 == 0 then OddPart(m / 2) else m
  }

  function Twos(m: nat): nat {
    if m > 0 && m % 2 == 0 then 1 + Twos(m / 2) else 0
  }

  /** d doubled i times. */
  function Doubled(d: nat, i: nat): nat {
    if i == 0 then d else 2 * Doubled(d, i - 1)
  }

  lemma {:induction false} Decomposition(m: nat)
    requires m > 0
    ensures Doubled(OddPart(m), Twos(m)) == m
  {
    if m % 2 == 0 {
      Decomposition(m / 2);
    }
  }

  /** n is a strong probable prime to base a. */
  ghost predicate Strong(n: int, a: int, d: nat, r: nat)
    requires n > 0
  {
    Pow(a, d) % n == 1 || exists i :: 0 <= i < r && Hits(n, a, d, i)
  }

  ghost predicate Hits(n: int, a: int, d: nat, i: nat)
    requires n > 0
  {
    Pow(a, Doubled(d, i)) % n == n - 1
  }

  function Base(n: int, draw: nat): int
    requires n > 3
  {
    draw % (n - 3) + 2
  }

  ghost predicate NoSmallDivisor(n: int) {
    forall k :: 0 <= k < |SMALL_PRIMES| ==> n % SMALL_PRIMES[k] != 0
  }

  /** What `_is_prime` answers: small primes, and numbers without small factors that are strong
      probable primes to every base drawn. */
  ghost predicate Accepts(n: int, draws: seq<nat>) {
    || n in SMALL_PRIMES
    || (n > 40 && NoSmallDivisor(n) &&
        forall k :: 0 <= k < |draws| ==> Strong(n, Base(n, draws[k]), OddPart(n - 1), Twos(n - 1)))
  }

  // ---------- the code ----------

  method SplitTwos(m: nat) returns (d: nat, r: nat)
    requires m > 0
    ensures d == OddPart(m) && r == Twos(m)
  {
    d, r := m, 0;
    while d % 2 == 0
      invariant d > 0 && OddPart(d) == OddPart(m) && r + Twos(d) == Twos(m)
      decreases d
    {
      d, r := d / 2, r + 1;
    }
  }

  lemma SquareStep(n: int, a: int, d: nat, i: nat)
    requires n > 0
    ensures ((Pow(a, Doubled(d, i)) % n) * (Pow(a, Doubled(d, i)) % n)) % n == Pow(a, Doubled(d, i + 1)) % n
  {
    var x := Pow(a, Doubled(d, i));
    PowAdd(a, Doubled(d, i), Doubled(d, i));
    assert Doubled(d, i + 1) == Doubled(d, i) + Doubled(d, i);
    ModSmall(x % n, n);
    ModMulBoth(x % n, x, x % n, x, n);
  }

  /** One base: `pow(a, d, n)`, then up to r - 1 squarings. */
  method Round(n: int, a: int, d: nat, r: nat) returns (ok: bool)
    requires n > 1 && r > 0
    ensures ok <==> Strong(n, a, d, r)
  {
    var x := Pow(a, d) % n;
    if x == 1 || x == n - 1 {
      assert x == n - 1 ==> Hits(n, a, d, 0);
      return true;
    }
    ok := false;
    for i := 0 to r - 1
      invariant x == Pow(a, Doubled(d, i)) % n
      invariant forall j :: 0 <= j <= i ==> !Hits(n, a, d, j)
    {
      SquareStep(n, a, d, i);
      x := (x * x) % n;
      if x == n - 1 {
        assert Hits(n, a, d, i + 1);
        return true;
      }
    }
  }

  /** The rounds for a number without small factors. */
  method Rounds(n: int, draws: seq<nat>) returns (ok: bool)
    requires n > 40 && n % 2 == 1
    ensures ok <==> forall k :: 0 <= k < |draws| ==> Strong(n, Base(n, draws[k]), OddPart(n - 1), Twos(n - 1))
  {
    var d, r := SplitTwos(n - 1);
    for k := 0 to |draws|
      invariant forall j :: 0 <= j < k ==> Strong(n, Base(n, draws[j]), d, r)
    {
      ok := Round(n, Base(n, draws[k]), d, r);
      if !ok {
        return;
      }
    }
    ok := true;
  }

  /** Miller and Rabin's condition for a base, by whatever odd d and r write n - 1 as 2^r * d. */
  ghost predicate PassesBase(n: int, a: int)
    requires n > 0
  {
    forall d: nat, r: nat :: d % 2 == 1 && Doubled(d, r) == n - 1 ==>
      Pow(a, d) % n == 1 || exists i: nat :: i < r && Pow(a, Doubled(d, i)) % n == n - 1
  }

  /** No prime below 41 divides n. */
  predicate Untouched(n: int) {
    && n % 2 != 0 && n % 3 != 0 && n % 5 != 0 && n % 7 != 0 && n % 11 != 0 && n % 13 != 0
    && n % 17 != 0 && n % 19 != 0 && n % 23 != 0 && n % 29 != 0 && n % 31 != 0 && n % 37 != 0
  }

  /** `_is_prime`: below 41 exactly the primes; beyond, no number with a factor below 41, and of the others
      exactly those that pass for every base drawn. No prime is ever rejected, and a drawn base that
      violates Fermat's little theorem rejects. */
  method IsPrime(n: int, draws: seq<nat>) returns (answer: bool)
    ensures answer <==> Accepts(n, draws)
    ensures n <= 40 ==> (answer <==> n in {2, 3, 5, 7, 11, 13, 17, 19, 23, 29, 31, 37})
    ensures n > 40 && !Untouched(n) ==> !answer
    ensures n > 40 && Untouched(n) ==>
              (answer <==> forall k :: 0 <= k < |draws| ==> PassesBase(n, 2 + draws[k] % (n - 3)))
    ensures forall k :: 0 <= k < |draws| && n > 40 && Pow(2 + draws[k] % (n - 3), n - 1) % n != 1 ==> !answer
    ensures Prime(n) ==> answer
  {
    AcceptsMeans(n, draws);
    assert Prime(n) ==> Accepts(n, draws) by {
      if Prime(n) { PrimeAccepted(n, draws); }
    }
    if n < 2 {
      return false;
    }
    for k := 0 to |SMALL_PRIMES|
      invariant forall j :: 0 <= j < k ==> n % SMALL_PRIMES[j] != 0
    {
      if n % SMALL_PRIMES[k] == 0 {
        SmallAnswer(n, k);
        return n == SMALL_PRIMES[k];
      }
    }
    NoSmallDivisorIsLarge(n);
    assert n % SMALL_PRIMES[0] != 0;
    answer := Rounds(n, draws);
  }

  // ---------- what acceptance means ----------

  lemma {:induction false} DoubledIsPow(d: nat, i: nat)
    ensures Doubled(d, i) == d * Pow(2, i)
  {
    if i > 0 {
      DoubledIsPow(d, i - 1);
      var x := Pow(2, i - 1);
      assert 2 * (d * x) == d * (2 * x);
    }
  }

  /** An odd number and a number of doublings are determined by the product. */
  lemma {:induction false} SplitUnique(d: nat, r: nat)
    requires d % 2 == 1
    ensures OddPart(Doubled(d, r)) == d && Twos(Doubled(d, r)) == r
  {
    if r > 0 { SplitUnique(d, r - 1); }
  }

  lemma StrongIsPasses(n: int, a: int)
    requires n > 1
    ensures Strong(n, a, OddPart(n - 1), Twos(n - 1)) <==> PassesBase(n, a)
  {
    var d, r := OddPart(n - 1), Twos(n - 1);
    Decomposition(n - 1);
    assert d % 2 == 1 && Doubled(d, r) == n - 1;
    if Strong(n, a, d, r) {
      forall e: nat, q: nat | e % 2 == 1 && Doubled(e, q) == n - 1
        ensures Pow(a, e) % n == 1 || exists i: nat :: i < q && Pow(a, Doubled(e, i)) % n == n - 1
      {
        SplitUnique(e, q);
        if i :| 0 <= i < r && Hits(n, a, d, i) {
          assert i < q && Pow(a, Doubled(e, i)) % n == n - 1;
        }
      }
    }
    if PassesBase(n, a) && Pow(a, d) % n != 1 {
      var i: nat :| i < r && Pow(a, Doubled(d, i)) % n == n - 1;
      assert Hits(n, a, d, i);
    }
  }

  lemma {:induction false} StaysOne(n: int, a: int, d: nat, i: nat, r: nat)
    requires n > 1 && i <= r && Pow(a, Doubled(d, i)) % n == 1
    ensures Pow(a, Doubled(d, r)) % n == 1
    decreases r - i
  {
    if i < r {
      SquareStep(n, a, d, i);
      ModSmall(1, n);
      StaysOne(n, a, d, i + 1, r);
    }
  }

  lemma SquareOfMinusOne(n: int)
    requires n > 1
    ensures ((n - 1) * (n - 1)) % n == 1
  {
    assert (n - 1) * (n - 1) == 1 + n * (n - 2);
    ModAddMultiple(1, n, n - 2);
    ModSmall(1, n);
  }

  /** Whatever passes satisfies Fermat's congruence. */
  lemma StrongIsFermat(n: int, a: int)
    requires n > 1 && Strong(n, a, OddPart(n - 1), Twos(n - 1))
    ensures Pow(a, n - 1) % n == 1
  {
    var d, r := OddPart(n - 1), Twos(n - 1);
    Decomposition(n - 1);
    if Pow(a, d) % n == 1 {
      StaysOne(n, a, d, 0, r);
    } else {
      var i :| 0 <= i < r && Hits(n, a, d, i);
      SquareStep(n, a, d, i);
      SquareOfMinusOne(n);
      StaysOne(n, a, d, i + 1, r);
    }
  }

  lemma TableIs(n: int)
    ensures NoSmallDivisor(n) <==> Untouched(n)
    ensures n in SMALL_PRIMES <==> n in {2, 3, 5, 7, 11, 13, 17, 19, 23, 29, 31, 37}
  {
    assert SMALL_PRIMES[0] == 2 && SMALL_PRIMES[1] == 3 && SMALL_PRIMES[2] == 5 && SMALL_PRIMES[3] == 7;
    assert SMALL_PRIMES[4] == 11 && SMALL_PRIMES[5] == 13 && SMALL_PRIMES[6] == 17 && SMALL_PRIMES[7] == 19;
    assert SMALL_PRIMES[8] == 23 && SMALL_PRIMES[9] == 29 && SMALL_PRIMES[10] == 31 && SMALL_PRIMES[11] == 37;
  }

  lemma AcceptsMeans(n: int, draws: seq<nat>)
    ensures n <= 40 ==> (Accepts(n, draws) <==> n in {2, 3, 5, 7, 11, 13, 17, 19, 23, 29, 31, 37})
    ensures n > 40 && !Untouched(n) ==> !Accepts(n, draws)
    ensures n > 40 && Untouched(n) ==>
              (Accepts(n, draws) <==> forall k :: 0 <= k < |draws| ==> PassesBase(n, 2 + draws[k] % (n - 3)))
    ensures forall k :: 0 <= k < |draws| && n > 40 && Pow(2 + draws[k] % (n - 3), n - 1) % n != 1 ==> !Accepts(n, draws)
  {
    TableIs(n);
    if n > 40 {
      forall k | 0 <= k < |draws|
        ensures Strong(n, Base(n, draws[k]), OddPart(n - 1), Twos(n - 1)) <==> PassesBase(n, 2 + draws[k] % (n - 3))
        ensures Pow(2 + draws[k] % (n - 3), n - 1) % n != 1 ==> !PassesBase(n, 2 + draws[k] % (n - 3))
      {
        StrongIsPasses(n, Base(n, draws[k]));
        if Strong(n, Base(n, draws[k]), OddPart(n - 1), Twos(n - 1)) { StrongIsFermat(n, Base(n, draws[k])); }
      }
    }
  }

  // ---------- trial division ----------

  /** Every number from 2 to 40 has a factor in the table. */
  lemma SmallFactor(n: int) returns (k: nat)
    requires 2 <= n <= 40
    ensures k < |SMALL_PRIMES| && n % SMALL_PRIMES[k] == 0
  {
    k := if n % 2 == 0 then 0 else if n % 3 == 0 then 1 else if n % 5 == 0 then 2
         else if n == 7 then 3 else if n == 11 then 4 else if n == 13 then 5 else if n == 17 then 6
         else if n == 19 then 7 else if n == 23 then 8 else if n == 29 then 9 else if n == 31 then 10 else 11;
  }

  lemma NoSmallDivisorIsLarge(n: int)
    requires n >= 2 && NoSmallDivisor(n)
    ensures n > 40 && n !in SMALL_PRIMES
  {
    if n <= 40 {
      var k := SmallFactor(n);
      assert false;
    }
  }

  /** The first table entry dividing n settles the answer. */
  lemma SmallAnswer(n: int, k: nat)
    requires n >= 2 && k < |SMALL_PRIMES| && n % SMALL_PRIMES[k] == 0
    requires forall j :: 0 <= j < k ==> n % SMALL_PRIMES[j] != 0
    ensures n in SMALL_PRIMES <==> n == SMALL_PRIMES[k]
    ensures !NoSmallDivisor(n)
  {
  }

  // ---------- primes pass ----------

  /** Going down from a power equal to 1, the square roots stay 1 or meet -1. */
  lemma {:induction false} DescendRoots(n: int, a: int, d: nat, r: nat)
    requires Prime(n) && Pow(a, Doubled(d, r)) % n == 1
    ensures Strong(n, a, d, r)
  {
    if r > 0 {
      var x := Pow(a, Doubled(d, r - 1)) % n;
      SquareStep(n, a, d, r - 1);
      RootsOfOne(x, n);
      if x == 1 {
        DescendRoots(n, a, d, r - 1);
        if i :| 0 <= i < r - 1 && Hits(n, a, d, i) {
          assert 0 <= i < r && Hits(n, a, d, i);
        }
      } else {
        assert Hits(n, a, d, r - 1);
      }
    }
  }

  lemma PrimeIsStrong(n: int, a: int)
    requires Prime(n) && 0 < a < n
    ensures Strong(n, a, OddPart(n - 1), Twos(n - 1))
  {
    ModSmall(a, n);
    Fermat(a, n);
    Decomposition(n - 1);
    DescendRoots(n, a, OddPart(n - 1), Twos(n - 1));
  }

  /** No choice of bases and no number of rounds makes the test reject a prime. */
  lemma PrimeAccepted(n: int, draws: seq<nat>)
    requires Prime(n)
    ensures Accepts(n, draws)
  {
    if n <= 40 {
      var k := SmallFactor(n);
      SmallFactorBound(n, k);
      assert SMALL_PRIMES[k] == n by { assert SMALL_PRIMES[k] < n ==> !Divides(SMALL_PRIMES[k], n); }
    } else {
      forall k | 0 <= k < |SMALL_PRIMES|
        ensures n % SMALL_PRIMES[k] != 0
      {
        assert !Divides(SMALL_PRIMES[k], n);
      }
      forall k | 0 <= k < |draws|
        ensures Strong(n, Base(n, draws[k]), OddPart(n - 1), Twos(n - 1))
      {
        PrimeIsStrong(n, Base(n, draws[k]));
      }
    }
  }

  lemma SmallFactorBound(n: int, k: nat)
    requires n >= 2 && k < |SMALL_PRIMES| && n % SMALL_PRIMES[k] == 0
    ensures SMALL_PRIMES[k] <= n
  {
    var p := SMALL_PRIMES[k];
    assert n < p ==> n % p == n by { if n < p { ModSmall(n, p); } }
  }

  /** Below 41 * 41 the answer is exact, whatever the draws: trial division alone decides. */
  lemma ExactBelow1681(n: int, draws: seq<nat>)
    requires n < 1681
    ensures Accepts(n, draws) <==> Prime(n)
  {
    if Accepts(n, draws) && n > 40 && NoSmallDivisor(n) {
      forall d | 2 <= d < n
        ensures !Divides(d, n)
      {
        if n % d == 0 {
          var e := n / d;
          assert n == d * e;
          assert d > 40 && e > 40 ==> d * e >= 41 * 41;
          assert 2 <= e by { assert e <= 1 ==> d * e <= d; }
          ModMultiple(e, d);
          assert n == e * d;
          FactorVisible(n, if d <= 40 then d else e);
          assert false;
        }
      }
    } else if n in SMALL_PRIMES {
      TablePrime(n);
    }
    if Prime(n) { PrimeAccepted(n, draws); }
  }

  lemma FactorVisible(n: int, d: int)
    requires 2 <= d <= 40 && n % d == 0
    ensures !NoSmallDivisor(n)
  {
    var k := SmallFactor(d);
    var p := SMALL_PRIMES[k];
    assert d == p * (d / p) && n == d * (n / d);
    assert n == p * ((d / p) * (n / d));
    ModMultiple(p, (d / p) * (n / d));
  }

  lemma TablePrime(n: int)
    requires n in SMALL_PRIMES
    ensures Prime(n)
  {
    forall d | 2 <= d < n
      ensures !Divides(d, n)
    {
      TableTrial(n, d);
    }
  }

  lemma TinyTrial(n: int, d: int)
    requires n in SMALL_PRIMES && 2 <= d <= 6 && d != n
    ensures n % d != 0
  {
  }

  lemma TableTrial(n: int, d: int)
    requires n in SMALL_PRIMES && 2 <= d < n
    ensures n % d != 0
  {
    var q := n / d;
    assert d > 6 && q > 6 ==> d * q >= 49;
    if d <= 6 {
      TinyTrial(n, d);
    } else if 2 <= q <= 6 {
      TinyTrial(n, q);
      ModMultiple(q, d);
      assert n % d == 0 ==> n == q * d;
    }
  }
}
