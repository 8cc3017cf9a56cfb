/**
  `_gen_prime` and `generate_rsa` of os_net/comp_networking/examples/tls_inspect.py, with the random
  draws as inputs.
*/
module KeyGen {
  import opened Bits
  import opened Bytes
  import opened MillerRabin
  import opened NumberTheory
  import opened Rsa
  import opened Wrappers

  /** What `secrets` gives for one candidate: its bits, and the bases of its primality test. */
  datatype Draw = Draw(value: nat, bases: seq<nat>)

  predicate InRange(bits: nat, draws: seq<Draw>) { forall i :: 0 <= i < |draws| ==> draws[i].value < Pow(2, bits) }

  /** `secrets.randbits(bits) | (1 << (bits - 1)) | 1` */
  function Candidate(bits: nat, value: nat): nat
    requires bits >= 1
  {
    Or(Or(value, Shl(1, bits - 1)), 1)
  }

  /** The top bit gives a candidate its length, the lowest makes it odd. */
  lemma CandidateRange(bits: nat, value: nat)
    requires bits >= 1 && value < Pow(2, bits)
    ensures Pow(2, bits - 1) <= Candidate(bits, value) < Pow(2, bits) && Candidate(bits, value) % 2 == 1
  {
    PowPositive(2, bits - 1);
    var top := Shl(1, bits - 1);
    assert top == Pow(2, bits - 1) && Pow(2, bits) == 2 * top;
    OrBounds(value, top, bits);
    OrBounds(Or(value, top), 1, bits);
    OrOne(Or(value, top));
  }

  /** From two bits on: the bits drawn, with the top one and the lowest added where they are missing. */
  lemma CandidateIs(bits: nat, value: nat)
    requires bits >= 2 && value < Pow(2, bits)
    ensures Candidate(bits, value) == value + (if value < Pow(2, bits - 1) then Pow(2, bits - 1) else 0) + (1 - value % 2)
  {
    SetTop(value, bits - 1);
    SetLowest(Or(value, Shl(1, bits - 1)));
    assert Pow(2, bits - 1) == 2 * Pow(2, bits - 2);
  }

  ghost predicate Chosen(bits: nat, d: Draw)
    requires bits >= 1
  {
    Accepts(Candidate(bits, d.value), d.bases)
  }

  ghost predicate NoneChosen(bits: nat, draws: seq<Draw>)
    requires bits >= 1
  {
    forall i :: 0 <= i < |draws| ==> !Chosen(bits, draws[i])
  }

  /** The first candidate among the draws that the test accepts. */
  ghost predicate FirstChosen(bits: nat, draws: seq<Draw>, p: nat)
    requires bits >= 1
  {
    exists i :: 0 <= i < |draws| && Chosen(bits, draws[i]) && p == Candidate(bits, draws[i].value)
                && forall j :: 0 <= j < i ==> !Chosen(bits, draws[j])
  }

  /** There is no other. */
  lemma FirstUnique(bits: nat, draws: seq<Draw>, p: nat, q: nat)
    requires bits >= 1 && FirstChosen(bits, draws, p) && FirstChosen(bits, draws, q)
    ensures p == q && !NoneChosen(bits, draws)
  {
    var i :| 0 <= i < |draws| && Chosen(bits, draws[i]) && p == Candidate(bits, draws[i].value)
             && forall j :: 0 <= j < i ==> !Chosen(bits, draws[j]);
    var k :| 0 <= k < |draws| && Chosen(bits, draws[k]) && q == Candidate(bits, draws[k].value)
             && forall j :: 0 <= j < k ==> !Chosen(bits, draws[j]);
    assert i == k;
  }

  /** `_gen_prime`: the first candidate the test accepts. */
  method GenPrime(bits: nat, draws: seq<Draw>) returns (p: Option<nat>)
    requires bits >= 1 && InRange(bits, draws)
    ensures p.None? <==> NoneChosen(bits, draws)
    ensures p.Some? ==> Pow(2, bits - 1) <= p.value < Pow(2, bits) && p.value % 2 == 1 && FirstChosen(bits, draws, p.value)
  {
    for i := 0 to |draws|
      invariant forall j :: 0 <= j < i ==> !Chosen(bits, draws[j])
    {
      var candidate := Candidate(bits, draws[i].value);
      CandidateRange(bits, draws[i].value);
      var accepted := IsPrime(candidate, draws[i].bases);
      if accepted {
        assert Chosen(bits, draws[i]);
        return Some(candidate);
      }
    }
    return None;
  }

  /** One pass of the loop: a key, another pass, or the ValueError of `pow(q, -1, p)`. */
  datatype Attempt = Made(key: Key) | Again | NotInvertible

  method TryKey(p: nat, q: nat) returns (a: Attempt)
    requires p > 2 && q > 2
    ensures a.Again? <==> p == q || ((p - 1) * (q - 1)) % 65537 == 0
    ensures a.NotInvertible? <==> !a.Again? && CommonDivisor(q, p)
    ensures a.Made? ==> WellFormed(a.key) && a.key.p == p && a.key.q == q && a.key.e == 65537
    ensures a.Made? ==> a.key.d < (p - 1) * (q - 1)
    ensures Prime(p) && Prime(q) ==> !a.NotInvertible? && (a.Made? ==> ValidKey(a.key))
  {
    if p == q {
      return Again;
    }
    var phi := (p - 1) * (q - 1);
    PhiLarge(p, q);
    if phi % E == 0 {
      return Again;
    }
    PublicExponentPrime();
    InverseOfPrime(E, phi);
    var d := Inverse(E, phi);
    CoprimeIff(q, p);
    if Prime(p) && Prime(q) { OtherPrime(q, p); }
    if ExtGcd(q, p).0 != 1 {
      return NotInvertible;
    }
    InverseOfCoprime(q, p);
    a := Made(Key(p * q, E, d, p, q, d % (p - 1), d % (q - 1), Inverse(q, p)));
  }

  lemma PhiLarge(p: nat, q: nat)
    requires p > 2 && q > 2
    ensures (p - 1) * (q - 1) > 1
  {
    ProductBound(p - 1, q - 1, 2);
  }

  lemma OtherPrime(q: nat, p: nat)
    requires Prime(p) && Prime(q) && p != q
    ensures ExtGcd(q, p).0 == 1
  {
    assert p % q != 0 by {
      if q < p { assert !Divides(q, p); } else { ModSmall(p, q); }
    }
    InverseOfPrime(q, p);
  }

  datatype Try = Try(first: seq<Draw>, second: seq<Draw>)

  predicate Drawn(bits: nat, tries: seq<Try>) {
    forall i :: 0 <= i < |tries| ==> InRange(bits / 2, tries[i].first) && InRange(bits / 2, tries[i].second)
  }

  /** Both factors have half the bits asked for. */
  predicate Sized(k: Key, bits: nat)
    requires bits >= 4
  {
    Pow(2, bits / 2 - 1) <= k.p < Pow(2, bits / 2) && Pow(2, bits / 2 - 1) <= k.q < Pow(2, bits / 2)
  }

  /** A modulus of two such factors has room for the padded block from 426 bits on. */
  lemma ModulusLength(k: Key, bits: nat)
    requires bits >= 426 && WellFormed(k) && Sized(k, bits)
    ensures ByteLength(k.n) >= 54
  {
    var half := bits / 2 - 1;
    PowAdd(2, half, half);
    ProductBound(k.p, k.q, Pow(2, half));
    PowMonotone(2, 424, half + half);
    ByteLengthBounds(k.n);
    if ByteLength(k.n) <= 53 {
      PowMonotone(256, ByteLength(k.n), 53);
      Pow256(53);
    }
  }

  lemma ProductBound(p: nat, q: nat, x: nat)
    requires x <= p && x <= q
    ensures x * x <= p * q
  {
    assert x * x <= x * q <= p * q;
  }

  /** Every key of at least 426 bits whose factors are prime signs verifiably, whatever the digest. */
  lemma GeneratedKeySigns(k: Key, bits: nat, h: seq<byte>)
    requires bits >= 426 && ValidKey(k) && Sized(k, bits) && |h| == 32
    ensures k.n > 0 && Opened(k, Sign(k, h)) == Block(h, ByteLength(k.n))
  {
    ModulusLength(k, bits);
    SignatureVerifies(k, h);
  }

  /** Every digest's signature opens to its padded block. */
  ghost predicate SignsAll(k: Key) {
    k.n > 0 && forall h: seq<byte> :: |h| == 32 ==> Opened(k, Sign(k, h)) == Block(h, ByteLength(k.n))
  }

  lemma KeySignsAll(k: Key, bits: nat)
    requires bits >= 426 && ValidKey(k) && Sized(k, bits)
    ensures SignsAll(k)
  {
    forall h: seq<byte> | |h| == 32
      ensures Opened(k, Sign(k, h)) == Block(h, ByteLength(k.n))
    {
      GeneratedKeySigns(k, bits, h);
    }
  }

  ghost predicate GoodKey(k: Key, bits: nat)
    requires bits >= 4
  {
    && WellFormed(k) && k.e == 65537 && k.d < Phi(k) && Sized(k, bits)
    && (Prime(k.p) && Prime(k.q) && bits >= 426 ==> SignsAll(k))
  }

  lemma KeyIsGood(k: Key, bits: nat)
    requires bits >= 4 && WellFormed(k) && k.e == 65537 && k.d < Phi(k) && Sized(k, bits)
    ensures GoodKey(k, bits)
  {
    if Prime(k.p) && Prime(k.q) && bits >= 426 { KeySignsAll(k, bits); }
  }

  // ---------- which key ----------

  /** The candidates of one pass. */
  ghost predicate Pair(bits: nat, t: Try, p: nat, q: nat)
    requires bits >= 4
  {
    FirstChosen(bits / 2, t.first, p) && FirstChosen(bits / 2, t.second, q)
  }

  /** The two `continue` statements. */
  predicate Unusable(p: nat, q: nat) { p == q || ((p - 1) * (q - 1)) % 65537 == 0 }

  ghost predicate Retries(bits: nat, t: Try)
    requires bits >= 4
  {
    exists p, q :: Pair(bits, t, p, q) && Unusable(p, q)
  }

  /** The draws of this pass end before both candidates are found. */
  ghost predicate RunsDry(bits: nat, t: Try)
    requires bits >= 4
  {
    NoneChosen(bits / 2, t.first) || NoneChosen(bits / 2, t.second)
  }

  ghost predicate AllRetry(bits: nat, tries: seq<Try>, n: nat)
    requires bits >= 4 && n <= |tries|
  {
    forall j :: 0 <= j < n ==> Retries(bits, tries[j])
  }

  /** Pass i is the first that does not retry, with these candidates. */
  ghost predicate Settles(bits: nat, tries: seq<Try>, i: nat, p: nat, q: nat)
    requires bits >= 4
  {
    i < |tries| && AllRetry(bits, tries, i) && Pair(bits, tries[i], p, q) && !Unusable(p, q)
  }

  /** Every pass retries until the draws end. */
  ghost predicate Exhausted(bits: nat, tries: seq<Try>)
    requires bits >= 4
  {
    AllRetry(bits, tries, |tries|) || exists i :: 0 <= i < |tries| && AllRetry(bits, tries, i) && RunsDry(bits, tries[i])
  }

  lemma PairUnique(bits: nat, t: Try, p: nat, q: nat)
    requires bits >= 4 && Pair(bits, t, p, q)
    ensures !RunsDry(bits, t)
    ensures forall x, y :: Pair(bits, t, x, y) ==> x == p && y == q
  {
    FirstUnique(bits / 2, t.first, p, p);
    FirstUnique(bits / 2, t.second, q, q);
    forall x, y | Pair(bits, t, x, y)
      ensures x == p && y == q
    {
      FirstUnique(bits / 2, t.first, x, p);
      FirstUnique(bits / 2, t.second, y, q);
    }
  }

  /** Draws that settle a key do not run out. */
  lemma SettlesIsNotExhausted(bits: nat, tries: seq<Try>, i: nat, p: nat, q: nat)
    requires bits >= 4 && Settles(bits, tries, i, p, q)
    ensures !Exhausted(bits, tries)
  {
    PairUnique(bits, tries[i], p, q);
    assert !Retries(bits, tries[i]);
    forall k | 0 <= k < |tries| && AllRetry(bits, tries, k)
      ensures !RunsDry(bits, tries[k])
    {
      if k < i {
        var x, y :| Pair(bits, tries[k], x, y);
        PairUnique(bits, tries[k], x, y);
      }
    }
  }

  /** What becomes of two candidates. */
  ghost predicate Outcome(bits: nat, a: Attempt, p: nat, q: nat)
    requires bits >= 4
  {
    && (a.Again? <==> Unusable(p, q))
    && (a.NotInvertible? <==> !Unusable(p, q) && CommonDivisor(q, p))
    && (a.Made? ==> a.key.p == p && a.key.q == q && GoodKey(a.key, bits))
  }

  method FromCandidates(bits: nat, p: nat, q: nat) returns (a: Attempt)
    requires bits >= 4 && p % 2 == 1 && q % 2 == 1
    requires Pow(2, bits / 2 - 1) <= p < Pow(2, bits / 2) && Pow(2, bits / 2 - 1) <= q < Pow(2, bits / 2)
    ensures Outcome(bits, a, p, q)
  {
    PowMonotone(2, 1, bits / 2 - 1);
    a := TryKey(p, q);
    if a.Made? { KeyIsGood(a.key, bits); }
  }

  /** One pass, with the primes drawn; nothing when the draws run out. */
  method OnePass(bits: nat, t: Try) returns (a: Option<Attempt>, ghost p: nat, ghost q: nat)
    requires bits >= 4 && InRange(bits / 2, t.first) && InRange(bits / 2, t.second)
    ensures a.None? ==> RunsDry(bits, t)
    ensures a.Some? ==> Pair(bits, t, p, q) && Outcome(bits, a.value, p, q)
  {
    var first := GenPrime(bits / 2, t.first);
    var second := GenPrime(bits / 2, t.second);
    if first.None? || second.None? {
      return None, 0, 0;
    }
    p, q := first.value, second.value;
    var attempt := FromCandidates(bits, first.value, second.value);
    a := Some(attempt);
  }

  /** `generate_rsa`: an answer exactly when the draws suffice, from the first pass that does not ask for
      another: the key of its first accepted candidates, or the error when they have a common divisor. */
  method GenerateRsa(bits: nat, tries: seq<Try>) returns (a: Option<Attempt>)
    requires bits >= 4 && Drawn(bits, tries)
    ensures a.None? <==> Exhausted(bits, tries)
    ensures a.Some? ==> !a.value.Again? && exists i, p, q :: Settles(bits, tries, i, p, q) && Outcome(bits, a.value, p, q)
  {
    for i := 0 to |tries|
      invariant AllRetry(bits, tries, i)
    {
      ghost var p, q;
      a, p, q := OnePass(bits, tries[i]);
      if a.None? {
        return;
      }
      if !a.value.Again? {
        assert Settles(bits, tries, i, p, q);
        SettlesIsNotExhausted(bits, tries, i, p, q);
        return;
      }
    }
    a := None;
  }
}
