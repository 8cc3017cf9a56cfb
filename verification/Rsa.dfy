/**
  RSA key construction and PKCS#1 v1.5 signing in os_net/comp_networking/examples/tls_inspect.py,
  against sections 5.1.2, 8.2 and 9.2 of RFC 8017. Primes and the SHA-256 digest are inputs;
  `pow(b, e, m)` is Pow(b, e) % m.
*/
module Rsa {
  import opened MillerRabin
  import opened NumberTheory
  import opened Bytes
  import opened Der
  import opened Wrappers

  datatype Key = Key(n: nat, e: nat, d: nat, p: nat, q: nat, dp: nat, dq: nat, qinv: nat)

  /** The public exponent of `generate_rsa`. */
  const E: nat := 65537

  /** The parameters fit together. */
  predicate WellFormed(k: Key) {
    && k.p > 2 && k.q > 2 && k.p != k.q && k.n == k.p * k.q
    && Phi(k) > 0 && (k.e * k.d) % Phi(k) == 1
    && k.dp == k.d % (k.p - 1) && k.dq == k.d % (k.q - 1)
    && k.qinv < k.p && (k.q * k.qinv) % k.p == 1
  }

  ghost predicate ValidKey(k: Key) { Prime(k.p) && Prime(k.q) && WellFormed(k) }

  function Phi(k: Key): int { (k.p - 1) * (k.q - 1) }

  // ---------- modular inverses: pow(a, -1, m) ----------

  /** Extended Euclid. */
  function ExtGcd(a: nat, b: nat): (t: (nat, int, int))
    decreases b
  {
    if b == 0 then (a, 1, 0)
    else
      var (g, x, y) := ExtGcd(b, a % b);
      (g, y, x - (a / b) * y)
  }

  lemma {:induction false} Bezout(a: nat, b: nat)
    requires a > 0 || b > 0
    ensures var (g, x, y) := ExtGcd(a, b);
            g > 0 && a * x + b * y == g && Divides(g, a) && Divides(g, b)
    decreases b
  {
    if b == 0 {
      ModMultiple(a, 1);
      ModMultiple(a, 0);
    } else {
      Bezout(b, a % b);
      var (g, x, y) := ExtGcd(b, a % b);
      BezoutStep(a, b, x, y);
      ModTimes(b, a / b, g);
      ModEq(a, a % b, g);
      assert a - a % b == b * (a / b);
    }
  }

  lemma BezoutStep(a: nat, b: nat, x: int, y: int)
    requires b > 0
    ensures b * x + (a % b) * y == a * y + b * (x - (a / b) * y)
  {
    assert a % b == a - b * (a / b);
    assert (a - b * (a / b)) * y == a * y - (b * (a / b)) * y;
    assert (b * (a / b)) * y == b * ((a / b) * y);
    assert b * (x - (a / b) * y) == b * x - b * ((a / b) * y);
  }

  /** `pow(a, -1, m)` */
  function Inverse(a: nat, m: nat): nat
    requires m > 0
  {
    ExtGcd(a, m).1 % m
  }

  lemma PrimeDivisor(g: int, a: int)
    requires Prime(a) && g > 0 && Divides(g, a)
    ensures g == 1 || g == a
  {
    if g > a { ModSmall(a, g); }
  }

  ghost predicate CommonDivisor(a: int, b: int) { exists g :: g > 1 && Divides(g, a) && Divides(g, b) }

  lemma CombinationDivides(a: int, b: int, x: int, y: int, f: int)
    requires f > 0 && Divides(f, a) && Divides(f, b)
    ensures Divides(f, a * x + b * y)
  {
    ModTimes(a, x, f);
    ModTimes(b, y, f);
    ModEq(a * x + b * y, b * y, f);
  }

  /** Extended Euclid ends with 1 exactly when there is no common divisor. */
  lemma CoprimeIff(a: nat, b: nat)
    requires a > 0 || b > 0
    ensures ExtGcd(a, b).0 == 1 <==> !CommonDivisor(a, b)
  {
    Bezout(a, b);
    var (g, x, y) := ExtGcd(a, b);
    if f :| f > 1 && Divides(f, a) && Divides(f, b) {
      CombinationDivides(a, b, x, y, f);
      ModSmall(1, f);
    }
    assert g > 1 ==> CommonDivisor(a, b);
  }

  /** And then it finds an inverse. */
  lemma InverseOfCoprime(a: nat, m: nat)
    requires m > 1 && ExtGcd(a, m).0 == 1
    ensures (a * Inverse(a, m)) % m == 1
  {
    Bezout(a, m);
    var (g, x, y) := ExtGcd(a, m);
    InverseOfBezout(a, m, x, y);
  }

  lemma InverseOfBezout(a: nat, m: nat, x: int, y: int)
    requires m > 1 && a * x + m * y == 1
    ensures (a * (x % m)) % m == 1
  {
    ModMul(x, a, m);
    assert (x % m) * a == a * (x % m) && x * a == a * x;
    assert m * -y == -(m * y);
    ModAddMultiple(1, m, -y);
    ModSmall(1, m);
  }

  /** A prime that does not divide m is invertible modulo m. */
  lemma InverseOfPrime(a: nat, m: nat)
    requires Prime(a) && m > 1 && m % a != 0
    ensures ExtGcd(a, m).0 == 1 && (a * Inverse(a, m)) % m == 1
  {
    Bezout(a, m);
    PrimeDivisor(ExtGcd(a, m).0, a);
    InverseOfCoprime(a, m);
  }

  // ---------- 65537 is prime ----------

  /** x doubled i times more. */
  lemma {:induction false} DoubledTwice(d: nat, i: nat, j: nat)
    ensures Doubled(Doubled(d, i), j) == Doubled(d, i + j)
  {
    if j > 0 { DoubledTwice(d, i, j - 1); }
  }

  lemma TwiceProduct(d: int, y: int)
    ensures 2 * (d * y) == d * (2 * y)
  {
  }

  lemma {:induction false} DoubledTimes(d: nat, i: nat)
    ensures Doubled(d, i) == d * Doubled(1, i)
    ensures Doubled(1, i) >= 1
  {
    if i > 0 {
      DoubledTimes(d, i - 1);
      TwiceProduct(d, Doubled(1, i - 1));
    }
  }

  /** 3 squared i times modulo 65537. */
  function Tower(i: nat): int {
    if i == 0 then 3 else (Tower(i - 1) * Tower(i - 1)) % 65537
  }

  lemma TowerTop()
    ensures Tower(15) == 65536
  {
    assert Tower(0) == 3;
    assert Tower(1) == 9;
    assert Tower(2) == 81;
    assert Tower(3) == 6561;
    assert Tower(4) == 54449;
    assert Tower(5) == 61869;
    assert Tower(6) == 19139;
    assert Tower(7) == 15028;
    assert Tower(8) == 282;
    assert Tower(9) == 13987;
    assert Tower(10) == 8224;
    assert Tower(11) == 65529;
    assert Tower(12) == 64;
    assert Tower(13) == 4096;
    assert Tower(14) == 65281;
    assert Tower(15) == 65536;
  }

  lemma {:induction false} TowerIsPower(i: nat)
    ensures Pow(3, Doubled(1, i)) % E == Tower(i)
  {
    if i == 0 {
      assert Pow(3, 1) == 3 * Pow(3, 0);
    } else {
      TowerIsPower(i - 1);
      SquareStep(E, 3, 1, i - 1);
    }
  }

  /** 3^(2^15) = -1 modulo 65537. */
  lemma ThreeIsNonresidue()
    ensures Pow(3, Doubled(1, 15)) % E == E - 1
  {
    TowerTop();
    TowerIsPower(15);
  }

  lemma {:induction false} OddPowerOfMinusOne(x: int, d: nat, f: int)
    requires f > 0 && (x + 1) % f == 0
    ensures (Pow(x, d) + (if d % 2 == 1 then 1 else -1)) % f == 0
  {
    if d > 0 {
      var y, sign := Pow(x, d - 1), if d % 2 == 1 then 1 else -1;
      OddPowerOfMinusOne(x, d - 1, f);
      ModTimes(y - sign, x, f);
      ModTimes(x + 1, sign, f);
      assert x * y + sign == (y - sign) * x + (x + 1) * sign;
      ModEq((y - sign) * x + (x + 1) * sign, (y - sign) * x, f);
    }
  }

  lemma {:induction false} TwosBound(m: nat, k: nat)
    requires 0 < m < Doubled(1, k + 1)
    ensures Twos(m) <= k
  {
    if m % 2 == 0 {
      TwosBound(m / 2, k - 1);
    }
  }

  /** If 3^h = -1 modulo a prime f other than 3, and h times the odd part of f - 1 is a multiple of
      f - 1, then f is 2: by Fermat an odd power of 3^h is 1 modulo f. */
  lemma OddOrder(f: int, h: nat, k: nat)
    requires Prime(f) && f != 3 && Divides(f, Pow(3, h) + 1) && h * OddPart(f - 1) == (f - 1) * k
    ensures f == 2
  {
    var x, d := Pow(3, h), OddPart(f - 1);
    OddPowerOfMinusOne(x, d, f);
    PowMul(3, h, d);
    PowerOfFermat(f, k);
    TwoIsZero(Pow(x, d), f);
  }

  /** No prime below 65537 divides it. */
  lemma NoPrimeFactor(f: int)
    requires Prime(f) && f < E
    ensures !Divides(f, E)
  {
    NotByTwoOrThree();
    if Divides(f, E) && f != 3 {
      var h := MinusOneModFactor(f);
      var k := CommonExponent(f, h);
      OddOrder(f, h, k);
    }
  }

  lemma NotByTwoOrThree()
    ensures !Divides(2, E) && !Divides(3, E)
  {
  }

  lemma TwoTo16()
    ensures Doubled(1, 16) == 65536
  {
    assert Doubled(1, 2) == 4;
    assert Doubled(1, 4) == 16;
    assert Doubled(1, 6) == 64;
    assert Doubled(1, 8) == 256;
    assert Doubled(1, 10) == 1024;
    assert Doubled(1, 12) == 4096;
    assert Doubled(1, 14) == 16384;
  }

  /** 2^15 times the odd part of f - 1 is a multiple of f - 1. */
  lemma CommonExponent(f: int, h: nat) returns (k: nat)
    requires 2 <= f < E && h == Doubled(1, 15)
    ensures h * OddPart(f - 1) == (f - 1) * k
  {
    var d, r := OddPart(f - 1), Twos(f - 1);
    TwoTo16();
    TwosBound(f - 1, 15);
    Decomposition(f - 1);
    k := Doubled(1, 15 - r);
    DoubledTwice(d, r, 15 - r);
    DoubledTimes(d, 15);
    DoubledTimes(f - 1, 15 - r);
    Commute(h, d);
  }

  lemma Commute(x: int, y: int)
    ensures x * y == y * x
  {
  }

  /** 3^(2^15) is -1 modulo every factor. */
  lemma MinusOneModFactor(f: int) returns (h: nat)
    requires f > 0 && Divides(f, E)
    ensures h == Doubled(1, 15) && Divides(f, Pow(3, h) + 1)
  {
    ThreeIsNonresidue();
    h := Doubled(1, 15);
    FactorOfSuccessor(Pow(3, h), E, f);
  }

  lemma FactorOfSuccessor(x: int, n: int, f: int)
    requires n > 1 && f > 0 && x % n == n - 1 && Divides(f, n)
    ensures Divides(f, x + 1)
  {
    ModUnique(-1, n, -1, n - 1);
    ModEq(x, -1, n);
    assert x + 1 == n * ((x + 1) / n);
    ModTimes(n, (x + 1) / n, f);
  }

  lemma PowerOfFermat(f: int, k: nat)
    requires Prime(f) && f != 3
    ensures (f - 1) * k >= 0 && Pow(3, (f - 1) * k) % f == 1
  {
    assert 3 % f != 0 by {
      if f > 3 { ModSmall(3, f); }
    }
    Fermat(3, f);
    ModSmall(1, f);
    PowMul(3, f - 1, k);
    PowCong(Pow(3, f - 1), 1, k, f);
    PowOne(k);
  }

  lemma TwoIsZero(y: int, f: int)
    requires f >= 2 && (y + 1) % f == 0 && y % f == 1
    ensures f == 2
  {
    ModEq(y + 1, 2, f);
    ModEq(y, 1, f);
    ModSmall(1, f);
    if f > 2 { ModSmall(2, f); }
  }

  lemma {:induction false} PrimeFactor(n: int) returns (f: int)
    requires n >= 2
    ensures Prime(f) && f <= n && Divides(f, n)
    decreases n
  {
    if Prime(n) {
      f := n;
    } else {
      var d :| 2 <= d < n && Divides(d, n);
      f := PrimeFactor(d);
      assert n == d * (n / d);
      ModTimes(d, n / d, f);
    }
  }

  lemma PublicExponentPrime()
    ensures Prime(E)
  {
    var f := PrimeFactor(E);
    if f < E { NoPrimeFactor(f); }
  }

  // ---------- the private and public operations undo each other ----------

  /** x^(1 + t(p-1)) = x modulo a prime p, for every x. */
  lemma PowerReturns(x: int, p: int, t: nat)
    requires Prime(p)
    ensures t * (p - 1) >= 0 && Pow(x, 1 + t * (p - 1)) % p == x % p
  {
    PowMul(x, p - 1, t);
    assert (p - 1) * t == t * (p - 1);
    var y := Pow(x, t * (p - 1));
    if x % p == 0 {
      ModTimes(x, y, p);
    } else {
      Fermat(x, p);
      ModSmall(1, p);
      PowCong(Pow(x, p - 1), 1, t, p);
      PowOne(t);
      ModMulBoth(x, x, y, 1, p);
    }
  }

  lemma Regroup(a: int, b: int, t: int)
    ensures (a * b) * t == (t * b) * a == (t * a) * b
  {
    assert (a * b) * t == a * (b * t) == b * (a * t);
  }

  /** e*d = 1 + t*phi, split both ways over the factors of phi. */
  lemma ExponentSplit(e: nat, d: nat, a: nat, b: nat) returns (t: nat)
    requires a * b > 0 && (e * d) % (a * b) == 1
    ensures d * e == 1 + (t * b) * a
    ensures d * e == 1 + (t * a) * b
  {
    t := (e * d) / (a * b);
    Commute(e, d);
    Regroup(a, b, t);
  }

  lemma Recover(k: Key, x: int)
    requires ValidKey(k)
    ensures Pow(x, k.d * k.e) % k.n == x % k.n
  {
    var t := ExponentSplit(k.e, k.d, k.p - 1, k.q - 1);
    PowerReturns(x, k.p, t * (k.q - 1));
    PowerReturns(x, k.q, t * (k.p - 1));
    SameModBoth(k.p, k.q, Pow(x, k.d * k.e), x);
  }

  lemma SameModBoth(p: int, q: int, y: int, x: int)
    requires Prime(p) && Prime(q) && p != q && y % p == x % p && y % q == x % q
    ensures p * q > 0 && y % (p * q) == x % (p * q)
  {
    ModEq(y, x, p);
    ModEq(y, x, q);
    CoprimeProduct(p, q, y - x);
    ModEq(y, x, p * q);
  }

  /** Raising to d and then to e gives every residue back: a signature verifies. */
  lemma SignThenVerify(k: Key, m: nat)
    requires ValidKey(k) && m < k.n
    ensures Pow(Pow(m, k.d) % k.n, k.e) % k.n == m
  {
    PowMod(Pow(m, k.d), k.e, k.n);
    PowMul(m, k.d, k.e);
    Recover(k, m);
    ModSmall(m, k.n);
  }

  // ---------- the CRT parameters ----------

  /** The private operation of section 5.1.2 of RFC 8017, from the exported CRT parameters. */
  function CrtDecrypt(k: Key, c: nat): int
    requires k.p > 0 && k.q > 0
  {
    var m1, m2 := Pow(c, k.dp) % k.p, Pow(c, k.dq) % k.q;
    m2 + k.q * (((m1 - m2) * k.qinv) % k.p)
  }

  /** Reducing the exponent modulo p - 1 does not change a power modulo p. */
  lemma ReducedExponent(c: int, d: nat, p: int)
    requires Prime(p) && d % (p - 1) > 0
    ensures Pow(c, d % (p - 1)) % p == Pow(c, d) % p
  {
    var r, t := d % (p - 1), d / (p - 1);
    assert d == (r - 1) + (1 + t * (p - 1)) by { assert d == (p - 1) * t + r; Commute(p - 1, t); }
    PowerReturns(c, p, t);
    PowAdd(c, r - 1, 1 + t * (p - 1));
    PowAdd(c, r - 1, 1);
    assert Pow(c, 1) == c * Pow(c, 0) == c;
    ModMulBoth(Pow(c, r - 1), Pow(c, r - 1), Pow(c, 1 + t * (p - 1)), c, p);
  }

  /** d is invertible modulo p - 1, so its residue there is not zero. */
  lemma ResidueNonzero(e: nat, d: nat, a: nat, b: nat)
    requires a >= 2 && b >= 1 && a * b > 0 && (e * d) % (a * b) == 1
    ensures d % a > 0
  {
    var t := ExponentSplit(e, d, a, b);
    if d % a == 0 {
      ModTimes(d, e, a);
      Commute(t * b, a);
      ModAddMultiple(1, a, t * b);
      ModSmall(1, a);
    }
  }

  lemma Swap(q: int, x: int, y: int)
    ensures q * (x * y) == x * (q * y)
  {
  }

  lemma CrtModP(p: int, q: int, qinv: int, m1: int, m2: int)
    requires p > 1 && (q * qinv) % p == 1
    ensures (m2 + q * (((m1 - m2) * qinv) % p)) % p == m1 % p
  {
    var x := m1 - m2;
    var w := x * qinv;
    ModSmall(w % p, p);
    ModMulBoth(q, q, w % p, w, p);
    Swap(q, x, qinv);
    ModSmall(1, p);
    ModMulBoth(x, x, q * qinv, 1, p);
    ModEq(q * (w % p), x, p);
    ModEq(m2 + q * (w % p), m1, p);
  }

  lemma CrtBound(p: int, q: int, m2: int, h: int)
    requires 0 <= m2 < q && 0 <= h < p
    ensures 0 <= m2 + q * h < p * q
  {
    assert q * h <= q * (p - 1) == p * q - q;
  }

  /** The exported dp, dq and qinv compute the same private operation as d. */
  lemma CrtAgrees(k: Key, c: nat)
    requires ValidKey(k)
    ensures CrtDecrypt(k, c) == Pow(c, k.d) % k.n
  {
    var m1, m2 := Pow(c, k.dp) % k.p, Pow(c, k.dq) % k.q;
    var h := ((m1 - m2) * k.qinv) % k.p;
    var m := CrtDecrypt(k, c);
    ResidueNonzero(k.e, k.d, k.p - 1, k.q - 1);
    Commute(k.p - 1, k.q - 1);
    ResidueNonzero(k.e, k.d, k.q - 1, k.p - 1);
    ReducedExponent(c, k.d, k.p);
    ReducedExponent(c, k.d, k.q);
    CrtModP(k.p, k.q, k.qinv, m1, m2);
    ModAddMultiple(m2, k.q, h);
    ModSmall(m1, k.p);
    ModSmall(m2, k.q);
    SameModBoth(k.p, k.q, m, Pow(c, k.d));
    CrtBound(k.p, k.q, m2, h);
    ModSmall(m, k.n);
  }

  // ---------- PKCS#1 v1.5 ----------

  const OID_SHA256: seq<nat> := [2, 16, 840, 1, 101, 3, 4, 2, 1]

  /** The DigestInfo prefix for SHA-256 in note 1 of section 9.2 of RFC 8017. */
  const SHA256_PREFIX: seq<byte> :=
    [0x30, 0x31, 0x30, 0x0d, 0x06, 0x09, 0x60, 0x86, 0x48, 0x01, 0x65, 0x03, 0x04, 0x02, 0x01,
     0x05, 0x00, 0x04, 0x20]

  lemma {:induction false} BitLengthFits(n: nat, k: nat)
    requires n < Pow(2, k)
    ensures BitLength(n) <= k
  {
    if n > 0 { BitLengthFits(n / 2, k - 1); }
  }

  lemma ShortLength(n: nat)
    requires n < 256
    ensures ByteLength(n) <= 1
  {
    Pow256(1);
    BitLengthFits(n, 8);
  }

  lemma Arc840()
    ensures Arc(840) == [0x86, 0x48]
  {
    assert Continued(6) == Continued(0) + [134];
  }

  lemma FirstArcs()
    ensures Arcs([840, 1, 101]) == [0x86, 0x48, 0x01, 0x65]
  {
    Arc840();
    ArcsSnoc([], 840);
    ArcsSnoc([840], 1);
    ArcsSnoc([840, 1], 101);
    assert [] + [840] == [840] && [840] + [1] == [840, 1] && [840, 1] + [101] == [840, 1, 101];
  }

  lemma SmallPair(parts: seq<nat>, x: byte, y: byte)
    requires x < 128 && y < 128
    ensures Arcs(parts + [x, y]) == Arcs(parts) + [x, y]
  {
    ArcsSnoc(parts, x);
    ArcsSnoc(parts + [x], y);
    assert (parts + [x]) + [y] == parts + [x, y];
  }

  lemma OidBytes()
    ensures OidBody(OID_SHA256) == [0x60, 0x86, 0x48, 0x01, 0x65, 0x03, 0x04, 0x02, 0x01]
  {
    FirstArcs();
    SmallPair([840, 1, 101], 3, 4);
    SmallPair([840, 1, 101] + [3, 4], 2, 1);
    assert OID_SHA256[2..] == [840, 1, 101] + [3, 4] + [2, 1];
  }

  lemma ArcsSnoc(parts: seq<nat>, p: nat)
    ensures Arcs(parts + [p]) == Arcs(parts) + Arc(p)
    ensures p < 128 ==> Arc(p) == [p]
  {
    assert (parts + [p])[..|parts|] == parts;
    assert p < 128 ==> Continued(p / 128) == [];
  }

  /** `_null()` */
  const NULL: seq<byte> := [0x05, 0x00]

  /** `digest_info = _seq(_seq(_oid(_OID_SHA256), _null()), _der(0x04, h))` */
  ghost function DigestInfo(h: seq<byte>): (r: seq<byte>)
    requires |h| == 32
    ensures |r| == 51
  {
    OidBytes();
    ShortLength(9);
    ShortLength(13);
    ShortLength(32);
    var alg := Tlv(0x30, Tlv(0x06, OidBody(OID_SHA256)) + NULL);
    var body := alg + Tlv(0x04, h);
    ShortLength(|body|);
    Tlv(0x30, body)
  }

  /** The encoder produces exactly the DigestInfo that the standard prescribes. */
  lemma DigestInfoIsStandard(h: seq<byte>)
    requires |h| == 32
    ensures DigestInfo(h) == SHA256_PREFIX + h
  {
    OidBytes();
    ShortLength(9);
    ShortLength(13);
    ShortLength(32);
    var alg := Tlv(0x30, Tlv(0x06, OidBody(OID_SHA256)) + NULL);
    AlgorithmBytes(alg);
    assert Tlv(0x04, h) == SHA256_PREFIX[17..] + h;
    assert alg + Tlv(0x04, h) == SHA256_PREFIX[2..] + h;
  }

  lemma AlgorithmBytes(alg: seq<byte>)
    requires ByteLength(9) <= 1 && ByteLength(13) <= 1 && |OidBody(OID_SHA256)| == 9
    requires alg == Tlv(0x30, Tlv(0x06, OidBody(OID_SHA256)) + NULL)
    ensures alg == SHA256_PREFIX[2..17]
  {
    OidBytes();
  }

  /** The padded block `em`. `b"\xff" * k` is empty when k is negative. */
  ghost function Block(h: seq<byte>, emlen: nat): seq<byte>
    requires |h| == 32
  {
    var ps: seq<byte> := if emlen < 54 then [] else seq(emlen - 54, _ => 0xff);
    [0x00, 0x01] + ps + [0x00] + DigestInfo(h)
  }

  /** How many bytes of ones stand at the front. */
  function LeadingOnes(b: seq<byte>): nat { if b != [] && b[0] == 0xff then 1 + LeadingOnes(b[1..]) else 0 }

  lemma {:induction false} OnesCounted(k: nat, rest: seq<byte>)
    requires rest != [] && rest[0] != 0xff
    ensures LeadingOnes(seq(k, _ => 0xff) + rest) == k
  {
    var b: seq<byte> := seq(k, _ => 0xff) + rest;
    if k > 0 {
      assert b[1..] == seq(k - 1, _ => 0xff) + rest;
      OnesCounted(k - 1, rest);
    } else {
      assert b == rest;
    }
  }

  /** The block has the length of the modulus exactly from 54 bytes on, and is then 00 01, padding, 00 and
      the digest info. */
  lemma BlockLength(h: seq<byte>, emlen: nat)
    requires |h| == 32
    ensures |Block(h, emlen)| == emlen <==> emlen >= 54
    ensures Block(h, emlen)[..2] == [0x00, 0x01]
    ensures emlen >= 54 ==> Block(h, emlen)[emlen - 52] == 0 && Block(h, emlen)[emlen - 51..] == SHA256_PREFIX + h
  {
    DigestInfoIsStandard(h);
  }

  /** Its padding is emlen - 54 bytes of ones, so the eight that section 9.2 of RFC 8017 demands are there
      exactly from 62 bytes on. */
  lemma PaddingLength(h: seq<byte>, emlen: nat)
    requires |h| == 32
    ensures LeadingOnes(Block(h, emlen)[2..]) == if emlen < 54 then 0 else emlen - 54
    ensures LeadingOnes(Block(h, emlen)[2..]) >= 8 <==> emlen >= 62
  {
    var k := if emlen < 54 then 0 else emlen - 54;
    var tail := [0x00] + DigestInfo(h);
    OnesCounted(k, tail);
    assert Block(h, emlen)[2..] == seq(k, _ => 0xff) + tail;
  }

  /** The leading zero byte keeps the block's value below the modulus. */
  lemma BlockBelowModulus(h: seq<byte>, n: nat)
    requires |h| == 32 && ByteLength(n) >= 54
    ensures FromBytes(Block(h, ByteLength(n))) < n
  {
    var em := Block(h, ByteLength(n));
    ByteLengthBounds(n);
    assert em == [0] + em[1..];
    FromAppend([0], em[1..]);
    assert FromBytes([0]) == 0;
    FromBound(em[1..]);
  }

  /** `_rsa_sign_sha256`, given the digest of the message. */
  ghost function Sign(k: Key, h: seq<byte>): (sig: seq<byte>)
    requires |h| == 32 && k.n > 0
    ensures |sig| == ByteLength(k.n)
  {
    ToBytes(Pow(FromBytes(Block(h, ByteLength(k.n))), k.d) % k.n, ByteLength(k.n))
  }

  /** The block that a verifier recovers from a signature with the public key. */
  ghost function Opened(k: Key, sig: seq<byte>): seq<byte>
    requires k.n > 0
  {
    ToBytes(Pow(FromBytes(sig), k.e) % k.n, ByteLength(k.n))
  }

  /** Every signature opens to its padded block, for every valid key whose modulus is long enough
      for the block and every digest. */
  lemma SignatureVerifies(k: Key, h: seq<byte>)
    requires ValidKey(k) && |h| == 32 && ByteLength(k.n) >= 54
    ensures k.n > 0 && Opened(k, Sign(k, h)) == Block(h, ByteLength(k.n))
  {
    var em, len := Block(h, ByteLength(k.n)), ByteLength(k.n);
    var x := FromBytes(em);
    BlockBelowModulus(h, k.n);
    BlockLength(h, len);
    SignThenVerify(k, x);
    ByteLengthBounds(k.n);
    FromTo(Pow(x, k.d) % k.n, len);
    ToFrom(em);
  }
}
