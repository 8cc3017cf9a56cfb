/**
  Addresses, masks and CIDR blocks of os_net/comp_networking/examples/subnet_calculator.py, with the
  bit operations defined bit by bit and shown to be the arithmetic of aligned blocks.
*/
module Ipv4 {
  import opened NumberTheory
  import opened Bits
  import opened Bytes

  const LIMIT: nat := 0x1_0000_0000
  const ALL: nat := 0xFFFF_FFFF

  lemma PowersOfTwo()
    ensures Pow(2, 8) == 256 && Pow(2, 16) == 0x1_0000 && Pow(2, 24) == 0x100_0000 && Pow(2, 32) == LIMIT
  {
    PowAdd(2, 8, 8);
    PowAdd(2, 16, 8);
    PowAdd(2, 16, 16);
  }

  /** Dividing x < p * m by p: the quotient, the multiple of p below x and the next one. */
  lemma QuotientBound(x: nat, p: nat, m: nat)
    requires p > 0 && x < p * m
    ensures x / p < m && x - x % p == (x / p) * p && x - x % p + p <= p * m && (x - x % p) % p == 0
  {
    var q := x / p;
    assert x == p * q + x % p;
    assert q >= m ==> p * q >= p * m;
    assert q + 1 <= m ==> p * (q + 1) <= p * m;
    assert p * (q + 1) == p * q + p;
    ModMultiple(p, q);
  }

  lemma LessOne(a: int, b: int)
    ensures (a - 1) * b == a * b - b
  {
  }

  // ---------- dotted quads ----------

  datatype Ip = Ip(a: byte, b: byte, c: byte, d: byte)

  /** `ip_to_int` */
  function IpToInt(ip: Ip): nat {
    Or(Or(Or(Shl(ip.a, 24), Shl(ip.b, 16)), Shl(ip.c, 8)), ip.d)
  }

  function Octet(x: nat): byte { AndOnes(x, 8); PowersOfTwo(); And(x, 0xFF) }

  /** `int_to_ip`, which keeps the low 32 bits. */
  function IntToIp(n: nat): Ip {
    Ip(Octet(Shr(n, 24)), Octet(Shr(n, 16)), Octet(Shr(n, 8)), Octet(n))
  }

  lemma IpValue(ip: Ip)
    ensures IpToInt(ip) == ip.a * 0x100_0000 + ip.b * 0x1_0000 + ip.c * 0x100 + ip.d
  {
    PowersOfTwo();
    OrDisjoint(ip.a, 24, Shl(ip.b, 16));
    OrDisjoint(ip.a * 0x100 + ip.b, 16, Shl(ip.c, 8));
    OrDisjoint(ip.a * 0x1_0000 + ip.b * 0x100 + ip.c, 8, ip.d);
  }

  lemma OctetsOf(n: nat)
    ensures IntToIp(n) == Ip(n / 0x100_0000 % 256, n / 0x1_0000 % 256, n / 0x100 % 256, n % 256)
  {
    PowersOfTwo();
    AndOnes(n / 0x100_0000, 8);
    AndOnes(n / 0x1_0000, 8);
    AndOnes(n / 0x100, 8);
    AndOnes(n, 8);
  }

  lemma BaseDigits(n: nat)
    ensures n / 0x1_0000 == n / 256 / 256 && n / 0x100_0000 == n / 256 / 256 / 256
    ensures n / LIMIT == n / 256 / 256 / 256 / 256
  {
  }

  /** Printing and reading an integer keeps its low 32 bits. */
  lemma IntRoundTrip(n: nat)
    ensures IpToInt(IntToIp(n)) == n % LIMIT
  {
    OctetsOf(n);
    IpValue(IntToIp(n));
    BaseDigits(n);
    LowBits(n);
  }

  lemma LowBits(n: nat)
    ensures n % LIMIT
         == (n / 256 / 256 / 256 % 256) * 0x100_0000 + (n / 256 / 256 % 256) * 0x1_0000 + (n / 256 % 256) * 0x100 + n % 256
  {
    var n1, n2, n3 := n / 256, n / 256 / 256, n / 256 / 256 / 256;
    var q := n3 / 256;
    assert n3 == 256 * q + n3 % 256;
    var low := (n3 % 256) * 0x100_0000 + (n2 % 256) * 0x1_0000 + (n1 % 256) * 0x100 + n % 256;
    assert n == LIMIT * q + low;
    ModUnique(n, LIMIT, q, low);
  }

  lemma DigitsBack(a: nat, b: nat, c: nat, d: nat)
    requires a < 256 && b < 256 && c < 256 && d < 256
    ensures var n := a * 0x100_0000 + b * 0x1_0000 + c * 0x100 + d;
            n / 0x100_0000 % 256 == a && n / 0x1_0000 % 256 == b && n / 0x100 % 256 == c && n % 256 == d
  {
    var n := a * 0x100_0000 + b * 0x1_0000 + c * 0x100 + d;
    assert n / 0x100 == a * 0x1_0000 + b * 0x100 + c;
    assert n / 0x1_0000 == a * 0x100 + b;
    assert n / 0x100_0000 == a;
  }

  lemma IpRoundTrip(ip: Ip)
    ensures IpToInt(ip) < LIMIT && IntToIp(IpToInt(ip)) == ip
  {
    IpValue(ip);
    OctetsFrom(IpToInt(ip), ip.a, ip.b, ip.c, ip.d);
  }

  lemma OctetsFrom(n: nat, a: byte, b: byte, c: byte, d: byte)
    requires n == a * 0x100_0000 + b * 0x1_0000 + c * 0x100 + d
    ensures n < LIMIT && IntToIp(n) == Ip(a, b, c, d)
  {
    OctetsOf(n);
    DigitsBack(a, b, c, d);
  }

  // ---------- CIDR blocks ----------

  /** `mask_from_prefix` */
  function Mask(prefix: nat): nat
    requires prefix <= 32
  {
    if prefix == 0 then 0 else And(Shl(ALL, 32 - prefix), ALL)
  }

  /** How many addresses a block of this prefix length has. */
  function Size(prefix: nat): (n: nat)
    requires prefix <= 32
    ensures n > 0
  {
    PowPositive(2, 32 - prefix);
    Pow(2, 32 - prefix)
  }

  /** A prefix of ones over a suffix of zeros. */
  lemma PrefixTimesSize(prefix: nat)
    requires prefix <= 32
    ensures Pow(2, prefix) > 0 && Size(prefix) * Pow(2, prefix) == LIMIT
    ensures Shl(Pow(2, prefix) - 1, 32 - prefix) == LIMIT - Size(prefix)
  {
    PowersOfTwo();
    PowPositive(2, prefix);
    PowAdd(2, prefix, 32 - prefix);
    var p, m := Size(prefix), Pow(2, prefix);
    assert p * m == m * p;
    LessOne(m, p);
  }

  lemma ShiftedAll(p: nat)
    requires 0 < p < LIMIT
    ensures (ALL * p) % LIMIT == LIMIT - p
  {
    ModUnique(ALL * p, LIMIT, p - 1, LIMIT - p);
  }

  lemma MaskValue(prefix: nat)
    requires prefix <= 32
    ensures Mask(prefix) == LIMIT - Size(prefix)
  {
    PowersOfTwo();
    if prefix > 0 {
      var p := Size(prefix);
      AndOnes(Shl(ALL, 32 - prefix), 32);
      PowMonotone(2, 32 - prefix, 31);
      assert Pow(2, 32) == 2 * Pow(2, 31);
      ShiftedAll(p);
    }
  }

  datatype Subnet = Subnet(prefix: nat, mask: int, network: int, broadcast: int) {
    function TotalAddresses(): int { broadcast - network + 1 }

    function UsableHosts(): int { if prefix >= 31 then TotalAddresses() else TotalAddresses() - 2 }

    predicate Has(x: int) { network <= x <= broadcast }
  }

  /** The largest multiple of n up to x. */
  function Floor(x: nat, n: nat): nat
    requires n > 0
  {
    if x < n then 0 else n + Floor(x - n, n)
  }

  lemma {:induction false} FloorIsMod(x: nat, n: nat)
    requires n > 0
    ensures Floor(x, n) == x - x % n
  {
    if x < n {
      ModSmall(x, n);
    } else {
      FloorIsMod(x - n, n);
      ModAddMultiple(x, n, -1);
    }
  }

  /** The block of 2^(32 - prefix) addresses around an address, aligned to its size. */
  function Cidr(ip: nat, prefix: nat): Subnet
    requires prefix <= 32
  {
    var network := Floor(ip, Size(prefix));
    Subnet(prefix, Complement(prefix), network, network + Size(prefix) - 1)
  }

  function Complement(prefix: nat): int
    requires prefix <= 32
  {
    LIMIT - Size(prefix)
  }

  /** `Subnet.__init__` on the integer the address stands for. */
  function Of(ip: nat, prefix: nat): Subnet
    requires prefix <= 32
  {
    MaskValue(prefix);
    var mask := Mask(prefix);
    var network := And(ip, mask);
    Subnet(prefix, mask, network, Or(network, ALL - mask))
  }

  lemma Masked(ip: nat, k: nat, j: nat)
    requires Pow(2, j) > 0 && Shr(ip, k) < Pow(2, j)
    ensures And(ip, Shl(Pow(2, j) - 1, k)) == Shl(Shr(ip, k), k)
  {
    AndShifted(ip, Pow(2, j) - 1, k);
    AndOnes(Shr(ip, k), j);
    ModSmall(Shr(ip, k), Pow(2, j));
  }

  lemma NetworkValue(ip: nat, prefix: nat)
    requires prefix <= 32 && ip < LIMIT
    ensures And(ip, Mask(prefix)) == Shl(Shr(ip, 32 - prefix), 32 - prefix)
  {
    MaskValue(prefix);
    PrefixTimesSize(prefix);
    QuotientBound(ip, Size(prefix), Pow(2, prefix));
    Masked(ip, 32 - prefix, prefix);
  }

  lemma FloorValue(ip: nat, p: nat, k: nat)
    requires p == Pow(2, k) && p > 0
    ensures Shl(Shr(ip, k), k) == ip - ip % p
  {
  }

  lemma FloorBounds(x: nat, n: nat)
    requires n > 0
    ensures 0 <= x - x % n <= x < x - x % n + n
  {
    assert n * (x / n) >= 0;
  }

  lemma Aligned(ip: nat, prefix: nat)
    requires prefix <= 32 && ip < LIMIT
    ensures var n := Floor(ip, Size(prefix));
            n % Size(prefix) == 0 && 0 <= n <= ip < n + Size(prefix) <= LIMIT
  {
    FloorIsMod(ip, Size(prefix));
    FloorBounds(ip, Size(prefix));
    PrefixTimesSize(prefix);
    QuotientBound(ip, Size(prefix), Pow(2, prefix));
  }

  lemma BroadcastValue(ip: nat, prefix: nat)
    requires prefix <= 32 && ip < LIMIT
    ensures var net := And(ip, Mask(prefix)); Mask(prefix) <= ALL && Or(net, ALL - Mask(prefix)) == net + Size(prefix) - 1
  {
    NetworkValue(ip, prefix);
    MaskValue(prefix);
    OrDisjoint(Shr(ip, 32 - prefix), 32 - prefix, Size(prefix) - 1);
  }

  /** The masks make the aligned block. */
  lemma OfIsCidr(ip: nat, prefix: nat)
    requires prefix <= 32 && ip < LIMIT
    ensures Of(ip, prefix) == Cidr(ip, prefix)
  {
    FloorIsMod(ip, Size(prefix));
    MaskedIsFloor(ip, prefix);
    MaskValue(prefix);
    BroadcastValue(ip, prefix);
  }

  method Construct(ip: nat, prefix: nat) returns (s: Subnet)
    requires prefix <= 32 && ip < LIMIT
    ensures s == Cidr(ip, prefix)
  {
    OfIsCidr(ip, prefix);
    s := Of(ip, prefix);
  }

  /** `Subnet(f"{int_to_ip(addr)}/{prefix}")`: the address wraps at 2^32. */
  method NewSubnet(addr: nat, prefix: nat) returns (s: Subnet)
    requires prefix <= 32
    ensures s == Cidr(addr % LIMIT, prefix)
  {
    IntRoundTrip(addr);
    s := Construct(IpToInt(IntToIp(addr)), prefix);
  }

  lemma MaskedIsFloor(ip: nat, prefix: nat)
    requires prefix <= 32 && ip < LIMIT
    ensures Complement(prefix) >= 0 && And(ip, Complement(prefix)) == ip - ip % Size(prefix)
  {
    MaskValue(prefix);
    NetworkValue(ip, prefix);
    FloorValue(ip, Size(prefix), 32 - prefix);
  }

  /** `(addr & mask) == net`: addr is in the aligned block at net. */
  method MaskTest(addr: nat, mask: nat, net: nat, ghost prefix: nat) returns (b: bool)
    requires addr < LIMIT && prefix <= 32 && mask == Complement(prefix) && net % Size(prefix) == 0
    ensures b <==> net <= addr < net + Size(prefix)
  {
    MaskedIsFloor(addr, prefix);
    FloorIs(addr, net, Size(prefix));
    b := And(addr, mask) == net;
  }

  lemma FloorIs(x: nat, y: nat, n: nat)
    requires n > 0 && y % n == 0
    ensures x - x % n == y <==> y <= x < y + n
  {
    if y <= x < y + n {
      assert y == n * (y / n);
      ModUnique(x, n, y / n, x - y);
    }
  }
}
