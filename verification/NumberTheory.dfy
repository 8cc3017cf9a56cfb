/** Modular arithmetic, powers, Euclid's lemma and Fermat's little theorem, from first principles. */
module NumberTheory {

  // ---------- remainders ----------

  /** A decomposition of x with a remainder in range determines x % m. */
  lemma ModUnique(x: int, m: int, q: int, r: int)
    requires m > 0 && 0 <= r < m && x == m * q + r
    ensures x % m == r && x / m == q
  {
    var k := q - x / m;
    assert m * k == x % m - r by {
      assert m * k == m * q - m * (x / m);
    }
    assert k >= 1 ==> m * k >= m;
    assert k <= -1 ==> m * k <= -m;
  }

  lemma ModMultiple(m: int, k: int)
    requires m > 0
    ensures (m * k) % m == 0
  {
    ModUnique(m * k, m, k, 0);
  }

  lemma ModAddMultiple(x: int, m: int, k: int)
    requires m > 0
    ensures (x + m * k) % m == x % m
  {
    assert x + m * k == m * (x / m + k) + x % m;
    ModUnique(x + m * k, m, x / m + k, x % m);
  }

  /** Congruence: equal remainders mean a multiple of m apart. */
  lemma ModEq(x: int, y: int, m: int)
    requires m > 0
    ensures x % m == y % m <==> (x - y) % m == 0
  {
    if x % m == y % m {
      assert x - y == m * (x / m - y / m);
      ModMultiple(m, x / m - y / m);
    }
    if (x - y) % m == 0 {
      assert x == y + m * ((x - y) / m);
      ModAddMultiple(y, m, (x - y) / m);
    }
  }

  lemma ModMul(a: int, b: int, m: int)
    requires m > 0
    ensures ((a % m) * b) % m == (a * b) % m
  {
    assert a * b == (a % m) * b + m * ((a / m) * b) by {
      assert a * b == (m * (a / m) + a % m) * b;
    }
    ModAddMultiple((a % m) * b, m, (a / m) * b);
  }

  /** Congruent factors give congruent products. */
  lemma ModMulBoth(a: int, a': int, b: int, b': int, m: int)
    requires m > 0 && a % m == a' % m && b % m == b' % m
    ensures (a * b) % m == (a' * b') % m
  {
    ModMul(a, b, m);
    ModMul(a', b, m);
    ModMul(b, a', m);
    ModMul(b', a', m);
    assert a' * b == b * a' && a' * b' == b' * a';
  }

  lemma ModSmall(x: int, m: int)
    requires 0 <= x < m
    ensures x % m == x
  {
    ModUnique(x, m, 0, x);
  }

  /** Divisibility passes to multiples. */
  lemma ModTimes(a: int, b: int, m: int)
    requires m > 0 && a % m == 0
    ensures (a * b) % m == 0
  {
    assert a * b == m * ((a / m) * b) by { assert a == m * (a / m); }
    ModMultiple(m, (a / m) * b);
  }

  // ---------- powers ----------

  function Pow(b: int, e: nat): int {
    if e == 0 then 1 else b * Pow(b, e - 1)
  }

  lemma {:induction false} PowAdd(b: int, x: nat, y: nat)
    ensures Pow(b, x + y) == Pow(b, x) * Pow(b, y)
  {
    if x > 0 {
      PowAdd(b, x - 1, y);
      assert b * (Pow(b, x - 1) * Pow(b, y)) == (b * Pow(b, x - 1)) * Pow(b, y);
    }
  }

  lemma {:induction false} PowMul(b: int, x: nat, y: nat)
    ensures x * y >= 0 && Pow(b, x * y) == Pow(Pow(b, x), y)
  {
    if y == 0 {
      assert x * y == 0;
    } else {
      PowMul(b, x, y - 1);
      assert x * y == x + x * (y - 1);
      PowAdd(b, x, x * (y - 1));
    }
  }

  lemma {:induction false} PowOne(e: nat)
    ensures Pow(1, e) == 1
  {
    if e > 0 { PowOne(e - 1); }
  }

  /** Congruent bases give congruent powers. */
  lemma {:induction false} PowCong(a: int, b: int, e: nat, m: int)
    requires m > 0 && a % m == b % m
    ensures Pow(a, e) % m == Pow(b, e) % m
  {
    if e > 0 {
      PowCong(a, b, e - 1, m);
      ModMulBoth(a, b, Pow(a, e - 1), Pow(b, e - 1), m);
    }
  }

  lemma PowMod(b: int, e: nat, m: int)
    requires m > 0
    ensures Pow(b % m, e) % m == Pow(b, e) % m
  {
    ModSmall(b % m, m);
    PowCong(b % m, b, e, m);
  }

  lemma {:induction false} PowPositive(b: int, e: nat)
    requires b > 0
    ensures Pow(b, e) > 0
  {
    if e > 0 {
      PowPositive(b, e - 1);
      assert b * Pow(b, e - 1) > 0;
    }
  }

  lemma {:induction false} PowMonotone(b: int, x: nat, y: nat)
    requires b >= 1 && x <= y
    ensures 1 <= Pow(b, x) <= Pow(b, y)
  {
    PowPositive(b, x);
    if x < y {
      PowMonotone(b, x, y - 1);
      assert b * Pow(b, y - 1) >= Pow(b, y - 1);
    }
  }

  // ---------- primes ----------

  predicate Divides(d: int, n: int)
    requires d > 0
  {
    n % d == 0
  }

  ghost predicate Prime(p: int) {
    p >= 2 && forall d :: 2 <= d < p ==> !Divides(d, p)
  }

  lemma {:induction false} EuclidSmall(p: int, a: int, b: int)
    requires Prime(p) && 0 < a < p && Divides(p, a * b)
    ensures Divides(p, b)
    decreases a
  {
    if a > 1 {
      var q, r := p / a, p % a;
      assert !Divides(a, p);
      assert r * b == p * b - q * (a * b) by {
        assert r == p - a * q;
        assert (a * q) * b == q * (a * b);
      }
      ModTimes(a * b, -q, p);
      ModMultiple(p, b);
      assert q * (a * b) == -((a * b) * -q);
      ModAddMultiple((a * b) * -q, p, b);
      EuclidSmall(p, r, b);
    } else {
      assert a * b == b;
    }
  }

  /** A prime that divides a product divides one of its factors. */
  lemma EuclidLemma(p: int, a: int, b: int)
    requires Prime(p) && Divides(p, a * b)
    ensures Divides(p, a) || Divides(p, b)
  {
    if a % p != 0 {
      ModMul(a, b, p);
      EuclidSmall(p, a % p, b);
    }
  }

  /** Distinct primes dividing x divide it together. */
  lemma CoprimeProduct(p: int, q: int, x: int)
    requires Prime(p) && Prime(q) && p != q && Divides(p, x) && Divides(q, x)
    ensures p * q > 0 && Divides(p * q, x)
  {
    var y := x / p;
    assert x == p * y;
    EuclidLemma(q, p, y);
    assert !Divides(q, p) by {
      if q < p {
        assert !Divides(q, p);
      } else {
        ModSmall(p, q);
      }
    }
    assert x == (p * q) * (y / q) by {
      assert y == q * (y / q);
      assert p * (q * (y / q)) == (p * q) * (y / q);
    }
    assert p * q > 0;
    ModMultiple(p * q, y / q);
  }

  // ---------- Fermat's little theorem ----------

  function Prod(s: seq<int>): int {
    if s == [] then 1 else s[0] * Prod(s[1..])
  }

  function Fact(n: nat): int {
    if n == 0 then 1 else n * Fact(n - 1)
  }

  lemma {:induction false} ProdCut(s: seq<int>, i: nat)
    requires i < |s|
    ensures Prod(s) == s[i] * Prod(s[..i] + s[i + 1..])
  {
    var r := s[..i] + s[i + 1..];
    if i == 0 {
      assert r == s[1..];
    } else {
      ProdCut(s[1..], i - 1);
      assert r[1..] == s[1..][..i - 1] + s[1..][i..];
      assert s[0] * (s[i] * Prod(r[1..])) == s[i] * (s[0] * Prod(r[1..]));
    }
  }

  lemma {:induction false} ProdSnoc(s: seq<int>, x: int)
    ensures Prod(s + [x]) == Prod(s) * x
  {
    if s == [] {
      assert s + [x] == [x];
    } else {
      assert (s + [x])[1..] == s[1..] + [x];
      ProdSnoc(s[1..], x);
      assert s[0] * (Prod(s[1..]) * x) == (s[0] * Prod(s[1..])) * x;
    }
  }

  ghost predicate DistinctWithin(s: seq<int>, n: nat) {
    && (forall i :: 0 <= i < |s| ==> 1 <= s[i] <= n)
    && (forall i, j :: 0 <= i < j < |s| ==> s[i] != s[j])
  }

  lemma CutWithin(s: seq<int>, i: nat, n: nat)
    requires DistinctWithin(s, n) && i < |s| && s[i] == n > 0
    ensures DistinctWithin(s[..i] + s[i + 1..], n - 1)
  {
    var r := s[..i] + s[i + 1..];
    assert forall j :: 0 <= j < |r| ==> r[j] == s[if j < i then j else j + 1];
  }

  lemma {:induction false} DistinctFit(s: seq<int>, n: nat)
    requires DistinctWithin(s, n)
    ensures |s| <= n
  {
    assert s != [] ==> 1 <= s[0] <= n;
    if n > 0 {
      if i :| 0 <= i < |s| && s[i] == n {
        CutWithin(s, i, n);
        DistinctFit(s[..i] + s[i + 1..], n - 1);
      } else {
        DistinctFit(s, n - 1);
      }
    }
  }

  /** n distinct numbers from 1..n include n. */
  lemma TopPresent(s: seq<int>, n: nat) returns (i: nat)
    requires DistinctWithin(s, n) && |s| == n > 0
    ensures i < |s| && s[i] == n
  {
    if j :| 0 <= j < |s| && s[j] == n {
      i := j;
    } else {
      DistinctFit(s, n - 1);
      assert false;
    }
  }

  /** n distinct numbers from 1..n multiply to n!. */
  lemma {:induction false} ProdOfPermutation(s: seq<int>, n: nat)
    requires DistinctWithin(s, n) && |s| == n
    ensures Prod(s) == Fact(n)
  {
    if n > 0 {
      var i := TopPresent(s, n);
      ProdCut(s, i);
      CutWithin(s, i, n);
      ProdOfPermutation(s[..i] + s[i + 1..], n - 1);
    }
  }

  /** a, 2a, ..., na modulo p. */
  function Multiples(a: int, p: int, n: nat): (s: seq<int>)
    requires p > 0
    ensures |s| == n && forall i :: 0 <= i < n ==> s[i] == (a * (i + 1)) % p
  {
    if n == 0 then [] else Multiples(a, p, n - 1) + [(a * n) % p]
  }

  lemma Rearrange(x: int, f: int, a: int, n: int)
    ensures (x * f) * (a * n) == (a * x) * (n * f)
  {
    assert (x * f) * (a * n) == x * (f * (a * n)) == x * (a * (n * f));
  }

  lemma {:induction false} ProdOfMultiples(a: int, p: int, n: nat)
    requires p > 0
    ensures Prod(Multiples(a, p, n)) % p == (Pow(a, n) * Fact(n)) % p
  {
    if n > 0 {
      ProdOfMultiples(a, p, n - 1);
      var s := Multiples(a, p, n - 1);
      ProdSnoc(s, (a * n) % p);
      ModSmall((a * n) % p, p);
      ModMulBoth(Prod(s), Pow(a, n - 1) * Fact(n - 1), (a * n) % p, a * n, p);
      Rearrange(Pow(a, n - 1), Fact(n - 1), a, n);
    }
  }

  lemma MultiplesDistinct(a: int, p: int)
    requires Prime(p) && a % p != 0
    ensures DistinctWithin(Multiples(a, p, p - 1), p - 1)
  {
    var s := Multiples(a, p, p - 1);
    forall i | 0 <= i < p - 1
      ensures s[i] >= 1
    {
      NonzeroProduct(a, i + 1, p);
    }
    forall i, j | 0 <= i < j < p - 1
      ensures s[i] != s[j]
    {
      NonzeroProduct(a, j - i, p);
      assert a * (j - i) == a * (j + 1) - a * (i + 1);
      ModEq(a * (j + 1), a * (i + 1), p);
    }
  }

  lemma NonzeroProduct(a: int, k: int, p: int)
    requires Prime(p) && a % p != 0 && 0 < k < p
    ensures (a * k) % p != 0
  {
    ModSmall(k, p);
    if (a * k) % p == 0 {
      EuclidLemma(p, a, k);
    }
  }

  lemma {:induction false} FactCoprime(n: nat, p: int)
    requires Prime(p) && n < p
    ensures !Divides(p, Fact(n))
  {
    if n == 0 {
      ModSmall(1, p);
    } else {
      FactCoprime(n - 1, p);
      NonzeroProduct(Fact(n - 1), n, p);
      assert n * Fact(n - 1) == Fact(n - 1) * n;
    }
  }

  lemma Subtract(x: int, f: int)
    ensures x * f - f == (x - 1) * f
  {
  }

  /** Fermat: a^(p-1) = 1 modulo a prime p that does not divide a. */
  lemma Fermat(a: int, p: int)
    requires Prime(p) && a % p != 0
    ensures Pow(a, p - 1) % p == 1
  {
    var f := Fact(p - 1);
    MultiplesDistinct(a, p);
    ProdOfPermutation(Multiples(a, p, p - 1), p - 1);
    ProdOfMultiples(a, p, p - 1);
    ModEq(Pow(a, p - 1) * f, f, p);
    Subtract(Pow(a, p - 1), f);
    FactCoprime(p - 1, p);
    EuclidLemma(p, Pow(a, p - 1) - 1, f);
    ModEq(Pow(a, p - 1), 1, p);
    ModSmall(1, p);
  }

  /** A square root of 1 modulo a prime is 1 or -1. */
  lemma RootsOfOne(x: int, p: int)
    requires Prime(p) && 0 <= x < p && (x * x) % p == 1
    ensures x == 1 || x == p - 1
  {
    ModSmall(1, p);
    ModEq(x * x, 1, p);
    assert x * x - 1 == (x - 1) * (x + 1);
    EuclidLemma(p, x - 1, x + 1);
    if (x - 1) % p == 0 {
      ModEq(x, 1, p);
      ModSmall(x, p);
    } else {
      ModEq(x + 1, 0, p);
      ModSmall(0, p);
      if x + 1 < p { ModSmall(x + 1, p); }
    }
  }
}
