/** Big-endian integers: `int.from_bytes`, `int.to_bytes` and `int.bit_length`. */
module Bytes {
  import opened NumberTheory

  type byte = x: int | 0 <= x < 256

  function FromBytes(b: seq<byte>): nat {
    if b == [] then 0 else FromBytes(b[..|b| - 1]) * 256 + b[|b| - 1]
  }

  /** The low `len` base-256 digits of x, most significant first. */
  function ToBytes(x: nat, len: nat): (b: seq<byte>)
    ensures |b| == len
  {
    if len == 0 then [] else ToBytes(x / 256, len - 1) + [x % 256]
  }

  lemma {:induction false} FromTo(x: nat, len: nat)
    requires x < Pow(256, len)
    ensures FromBytes(ToBytes(x, len)) == x
  {
    if len > 0 {
      var b := ToBytes(x, len);
      assert b[..len - 1] == ToBytes(x / 256, len - 1);
      FromTo(x / 256, len - 1);
    }
  }

  lemma {:induction false} ToFrom(b: seq<byte>)
    ensures ToBytes(FromBytes(b), |b|) == b
  {
    if b != [] {
      var front, last := b[..|b| - 1], b[|b| - 1];
      ModUnique(FromBytes(b), 256, FromBytes(front), last);
      ToFrom(front);
      assert b == front + [last];
    }
  }

  /** Byte i counts how often 256 to the power of the bytes behind it fits. */
  lemma {:induction false} BigEndian(x: nat, len: nat, i: nat)
    requires i < len
    ensures Pow(256, len - 1 - i) > 0 && ToBytes(x, len)[i] == x / Pow(256, len - 1 - i) % 256
  {
    PowPositive(256, len - 1 - i);
    if i < len - 1 {
      BigEndian(x / 256, len - 1, i);
      DivideBoth(x, 256, Pow(256, len - 2 - i));
    }
  }

  lemma DivideBoth(x: nat, a: nat, b: nat)
    requires a > 0 && b > 0
    ensures a * b > 0 && x / (a * b) == (x / a) / b
  {
    var q, r := (x / a) / b, (x / a) % b;
    var rest := r * a + x % a;
    assert x == (q * b + r) * a + x % a;
    assert (q * b + r) * a == (a * b) * q + r * a;
    assert r * a + a <= b * a by { assert (r + 1) * a <= b * a; }
    ModUnique(x, a * b, q, rest);
  }

  lemma {:induction false} FromBound(b: seq<byte>)
    ensures FromBytes(b) < Pow(256, |b|)
  {
    if b != [] {
      FromBound(b[..|b| - 1]);
    }
  }

  lemma {:induction false} FromAppend(a: seq<byte>, b: seq<byte>)
    ensures FromBytes(a + b) == FromBytes(a) * Pow(256, |b|) + FromBytes(b)
  {
    if b == [] {
      assert a + b == a;
    } else {
      var front := b[..|b| - 1];
      assert (a + b)[..|a + b| - 1] == a + front;
      FromAppend(a, front);
      var x, y := FromBytes(a), Pow(256, |front|);
      assert (x * y) * 256 == x * (256 * y);
    }
  }

  function BitLength(n: nat): nat {
    if n == 0 then 0 else 1 + BitLength(n / 2)
  }

  /** `(n.bit_length() + 7) // 8` */
  function ByteLength(n: nat): nat {
    (BitLength(n) + 7) / 8
  }

  lemma {:induction false} BitLengthBounds(n: nat)
    ensures n < Pow(2, BitLength(n))
    ensures n > 0 ==> BitLength(n) > 0 && Pow(2, BitLength(n) - 1) <= n
  {
    if n > 0 {
      BitLengthBounds(n / 2);
    }
  }

  lemma Pow256(k: nat)
    ensures Pow(256, k) == Pow(2, 8 * k)
  {
    PowMul(2, 8, k);
    assert Pow(2, 8) == 256;
  }

  /** n has exactly ByteLength(n) base-256 digits. */
  lemma ByteLengthBounds(n: nat)
    ensures n < Pow(256, ByteLength(n))
    ensures n > 0 ==> ByteLength(n) > 0 && Pow(256, ByteLength(n) - 1) <= n
  {
    var bits, len := BitLength(n), ByteLength(n);
    BitLengthBounds(n);
    Pow256(len);
    PowMonotone(2, bits, 8 * len);
    if n > 0 {
      Pow256(len - 1);
      PowMonotone(2, 8 * (len - 1), bits - 1);
    }
  }
}
