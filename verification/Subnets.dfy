/**
  Aligned blocks laid out in a parent: `Subnet.split` and `RoutingTable` of
  os_net/comp_networking/examples/subnet_calculator.py.
*/
module Subnets {
  import opened NumberTheory
  import opened Ipv4
  import opened Wrappers

  /** What the constructor makes. */
  predicate Proper(s: Subnet) {
    s.prefix <= 32 && s.mask == Complement(s.prefix) && s.network % Size(s.prefix) == 0
    && 0 <= s.network && s.broadcast == s.network + Size(s.prefix) - 1 < LIMIT
  }

  lemma CidrProper(ip: nat, prefix: nat)
    requires prefix <= 32 && ip < LIMIT
    ensures Proper(Cidr(ip, prefix)) && Cidr(ip, prefix).Has(ip)
  {
    Aligned(ip, prefix);
  }

  /** A smaller block's size divides a larger one's. */
  lemma SizeDivides(p: nat, q: nat)
    requires p <= q <= 32
    ensures Size(q) <= Size(p) && Size(p) % Size(q) == 0
    ensures Size(p) == Size(q) * Pow(2, q - p)
  {
    PowAdd(2, 32 - q, q - p);
    PowMonotone(2, 32 - q, 32 - p);
    ModMultiple(Size(q), Pow(2, q - p));
  }

  lemma MultipleOfMultiple(x: nat, a: nat, b: nat)
    requires a > 0 && b > 0 && x % a == 0 && a % b == 0
    ensures x % b == 0
  {
    ModTimes(a, x / a, b);
    assert x == a * (x / a);
  }

  lemma AlignedDown(x: nat, p: nat, q: nat)
    requires p <= q <= 32 && x % Size(p) == 0
    ensures x % Size(q) == 0
  {
    SizeDivides(p, q);
    MultipleOfMultiple(x, Size(p), Size(q));
  }

  lemma SumOfMultiples(x: nat, y: nat, n: nat)
    requires n > 0 && x % n == 0 && y % n == 0
    ensures (x + y) % n == 0
  {
    ModEq(x + y, y, n);
  }

  lemma GapOfMultiples(x: nat, y: nat, n: nat)
    requires n > 0 && x % n == 0 && y % n == 0 && x < y + n
    ensures x <= y
  {
    ModEq(x, y, n);
    if x > y {
      ModSmall(x - y, n);
    }
  }

  /** CIDR blocks nest or are apart: if they share an address, the longer prefix lies inside. */
  lemma NestedOrApart(s: Subnet, t: Subnet, x: int)
    requires Proper(s) && Proper(t) && s.prefix <= t.prefix && s.Has(x) && t.Has(x)
    ensures s.network <= t.network && t.broadcast <= s.broadcast
  {
    EndAligned(s, t.prefix);
    GapOfMultiples(s.network, t.network, Size(t.prefix));
    SumOfMultiples(t.network, Size(t.prefix), Size(t.prefix));
    GapOfMultiples(t.network + Size(t.prefix), s.network + Size(s.prefix), Size(t.prefix));
  }

  // ---------- tilings ----------

  /** The blocks lie end to end from start up to, not including, end. */
  predicate EndToEnd(subs: seq<Subnet>, start: nat, end: nat) {
    if subs == [] then start == end
    else subs[0].network == start && start <= subs[0].broadcast && EndToEnd(subs[1..], subs[0].broadcast + 1, end)
  }

  predicate Covered(subs: seq<Subnet>, x: int) { exists i :: 0 <= i < |subs| && subs[i].Has(x) }

  predicate Apart(s: Subnet, t: Subnet) { s.broadcast < t.network }

  /** Blocks laid end to end are in order, pairwise disjoint, inside the range, and cover it. */
  lemma {:induction false} EndToEndTiles(subs: seq<Subnet>, start: nat, end: nat)
    requires EndToEnd(subs, start, end)
    ensures start <= end
    ensures forall i :: 0 <= i < |subs| ==> start <= subs[i].network <= subs[i].broadcast < end
    ensures forall i, j :: 0 <= i < j < |subs| ==> Apart(subs[i], subs[j])
    ensures forall x :: start <= x < end ==> Covered(subs, x)
  {
    if subs != [] {
      var next := subs[0].broadcast + 1;
      EndToEndTiles(subs[1..], next, end);
      forall i, j | 0 <= i < j < |subs|
        ensures Apart(subs[i], subs[j])
      {
        assert subs[j] == subs[1..][j - 1];
        if i > 0 { assert subs[i] == subs[1..][i - 1]; }
      }
      forall i | 0 <= i < |subs|
        ensures start <= subs[i].network <= subs[i].broadcast < end
      {
        if i > 0 { assert subs[i] == subs[1..][i - 1]; }
      }
      forall x | start <= x < end
        ensures Covered(subs, x)
      {
        if x < next {
          assert subs[0].Has(x);
        } else {
          assert Covered(subs[1..], x);
          var i :| 0 <= i < |subs[1..]| && subs[1..][i].Has(x);
          assert subs[i + 1].Has(x);
        }
      }
    }
  }

  lemma {:induction false} EndToEndSnoc(subs: seq<Subnet>, start: nat, end: nat, s: Subnet)
    requires EndToEnd(subs, start, end) && s.network == end <= s.broadcast
    ensures EndToEnd(subs + [s], start, s.broadcast + 1)
  {
    var t := subs + [s];
    if subs == [] {
      assert t[1..] == [];
    } else {
      assert t[1..] == subs[1..] + [s];
      EndToEndSnoc(subs[1..], subs[0].broadcast + 1, end, s);
    }
  }

  predicate Equal(subs: seq<Subnet>, prefix: int) {
    forall i :: 0 <= i < |subs| ==> Proper(subs[i]) && subs[i].prefix == prefix
  }

  /** Equal blocks laid end to end from start, so far up to addr. */
  predicate Laid(subs: seq<Subnet>, start: nat, addr: nat, prefix: nat)
    requires prefix <= 32
  {
    EndToEnd(subs, start, addr) && Equal(subs, prefix) && addr % Size(prefix) == 0
  }

  /** At an aligned address the block starts right there. */
  lemma AlignedBlock(addr: nat, prefix: nat)
    requires prefix <= 32 && addr < LIMIT && addr % Size(prefix) == 0
    ensures Cidr(addr % LIMIT, prefix).network == addr && Proper(Cidr(addr % LIMIT, prefix))
  {
    ModSmall(addr, LIMIT);
    FloorIsMod(addr, Size(prefix));
    CidrProper(addr, prefix);
  }

  lemma LayOne(subs: seq<Subnet>, child: Subnet, start: nat, addr: nat, prefix: nat)
    requires prefix <= 32 && Laid(subs, start, addr, prefix)
    requires Proper(child) && child.network == addr && child.prefix == prefix
    ensures Laid(subs + [child], start, addr + Size(prefix), prefix)
  {
    EndToEndSnoc(subs, start, addr, child);
    SumOfMultiples(addr, Size(prefix), Size(prefix));
  }

  lemma {:induction false} EqualEnd(subs: seq<Subnet>, start: nat, end: nat, prefix: nat)
    requires prefix <= 32 && EndToEnd(subs, start, end) && Equal(subs, prefix)
    ensures end == start + Size(prefix) * |subs|
  {
    if subs != [] {
      EqualEnd(subs[1..], subs[0].broadcast + 1, end, prefix);
      OneMore(Size(prefix), |subs| - 1);
    }
  }

  datatype SplitResult = Children(subnets: seq<Subnet>) | AssertionError | NegativeShift

  /** `Subnet.split`: equal blocks, end to end over the whole parent. */
  method Split(s: Subnet, newPrefix: int) returns (r: SplitResult)
    requires Proper(s)
    ensures r.AssertionError? <==> newPrefix <= s.prefix
    ensures r.NegativeShift? <==> newPrefix > 32
    ensures r.Children? ==> EndToEnd(r.subnets, s.network, s.broadcast + 1) && Equal(r.subnets, newPrefix)
    ensures r.Children? ==> |r.subnets| == Pow(2, newPrefix - s.prefix)
  {
    if newPrefix <= s.prefix {
      return AssertionError;
    }
    if newPrefix > 32 {
      return NegativeShift;
    }
    var step := Size(newPrefix);
    EndAligned(s, newPrefix);
    var children: seq<Subnet>, addr: nat := [], s.network;
    while addr <= s.broadcast
      invariant addr <= s.broadcast + 1 && Laid(children, s.network, addr, newPrefix)
      decreases s.broadcast + 1 - addr
    {
      var child := NewSubnet(addr, newPrefix);
      AlignedBlock(addr, newPrefix);
      LayOne(children, child, s.network, addr, newPrefix);
      StepFits(addr, s.broadcast + 1, step);
      children := children + [child];
      addr := addr + step;
    }
    CountIs(s, newPrefix, children);
    r := Children(children);
  }

  lemma CountIs(s: Subnet, q: nat, subs: seq<Subnet>)
    requires Proper(s) && s.prefix <= q <= 32 && Laid(subs, s.network, s.broadcast + 1, q)
    ensures |subs| == Pow(2, q - s.prefix)
  {
    SizeDivides(s.prefix, q);
    EqualEnd(subs, s.network, s.broadcast + 1, q);
    EqualFactors(Size(q), |subs|, Pow(2, q - s.prefix));
  }

  lemma EqualFactors(n: int, a: int, b: int)
    requires n > 0 && n * a == n * b
    ensures a == b
  {
    assert n * (a - b) == 0;
  }

  lemma StepFits(addr: nat, end: nat, step: nat)
    requires step > 0 && addr < end && addr % step == 0 && end % step == 0
    ensures addr + step <= end && (addr + step) % step == 0
  {
    SumOfMultiples(addr, step, step);
    GapOfMultiples(addr + step, end, step);
  }

  lemma EndAligned(s: Subnet, q: nat)
    requires Proper(s) && s.prefix <= q <= 32
    ensures s.network % Size(q) == 0 && (s.broadcast + 1) % Size(q) == 0
  {
    AlignedDown(s.network, s.prefix, q);
    SizeDivides(s.prefix, q);
    SumOfMultiples(s.network, Size(s.prefix), Size(q));
  }

  lemma OneMore(n: int, k: int)
    ensures n * (k + 1) == n * k + n
  {
  }

  // ---------- longest-prefix match ----------

  datatype Route<Hop> = Route(net: nat, mask: int, prefix: nat, hop: Hop) {
    /** The addresses the route is for. */
    predicate Has(addr: int) { prefix <= 32 && net <= addr < net + Size(prefix) }
  }

  predicate GoodRoute<Hop>(r: Route<Hop>) {
    r.prefix <= 32 && r.mask == Complement(r.prefix) && r.net % Size(r.prefix) == 0
    && r.net + Size(r.prefix) <= LIMIT
  }

  /** Every match among the first k is shorter than the bound. */
  predicate Shorter<Hop>(routes: seq<Route<Hop>>, addr: nat, k: int, bound: int) {
    forall j :: 0 <= j < k && j < |routes| && routes[j].Has(addr) ==> routes[j].prefix < bound
  }

  /** Route i matches, no match is longer, and no earlier match is as long. */
  predicate Winner<Hop>(routes: seq<Route<Hop>>, addr: nat, i: nat) {
    i < |routes| && routes[i].Has(addr)
    && Shorter(routes, addr, |routes|, routes[i].prefix + 1) && Shorter(routes, addr, i, routes[i].prefix)
  }

  lemma ShorterGrows<Hop>(routes: seq<Route<Hop>>, addr: nat, k: nat, bound: int, more: int)
    requires k < |routes| && Shorter(routes, addr, k, bound) && bound <= more
    requires routes[k].Has(addr) ==> routes[k].prefix < more
    ensures Shorter(routes, addr, k + 1, more)
  {
  }

  class RoutingTable<Hop> {
    var routes: seq<Route<Hop>>

    predicate Valid()
      reads this
    {
      GoodRoutes(routes)
    }

    constructor ()
      ensures Valid() && routes == []
    {
      routes := [];
    }

    method Add(ip: Ip, prefix: nat, hop: Hop)
      requires Valid() && prefix <= 32
      modifies this
      ensures Valid() && |routes| == |old(routes)| + 1 && routes[..|old(routes)|] == old(routes)
      ensures var r := routes[|old(routes)|]; r.hop == hop && r.prefix == prefix && r.Has(IpToInt(ip))
    {
      IpRoundTrip(ip);
      var route := NewRoute(IpToInt(ip), prefix, hop);
      routes := routes + [route];
    }

    /** The first of the longest matches, or nothing when nothing matches. */
    method Lookup(ip: Ip) returns (best: Option<Hop>)
      requires Valid()
      ensures best.None? ==> forall i :: 0 <= i < |routes| ==> !routes[i].Has(IpToInt(ip))
      ensures best.Some? ==> exists i: nat :: Winner(routes, IpToInt(ip), i) && best.value == routes[i].hop
    {
      IpRoundTrip(ip);
      best := Match(routes, IpToInt(ip));
    }
  }

  method NewRoute<Hop>(addr: nat, prefix: nat, hop: Hop) returns (r: Route<Hop>)
    requires prefix <= 32 && addr < LIMIT
    ensures GoodRoute(r) && r.hop == hop && r.prefix == prefix && r.Has(addr)
  {
    CidrProper(addr, prefix);
    var s := Construct(addr, prefix);
    r := Route(s.network, s.mask, s.prefix, hop);
  }

  predicate GoodRoutes<Hop>(routes: seq<Route<Hop>>) {
    forall i :: 0 <= i < |routes| ==> GoodRoute(routes[i])
  }

  /** The loop of `lookup`. */
  method Match<Hop>(routes: seq<Route<Hop>>, addr: nat) returns (best: Option<Hop>)
    requires GoodRoutes(routes) && addr < LIMIT
    ensures best.None? ==> Shorter(routes, addr, |routes|, 0)
    ensures best.Some? ==> exists i: nat :: Winner(routes, addr, i) && best.value == routes[i].hop
  {
    best := None;
    var bestPrefix: int, k := -1, 0;
    ghost var w := 0;
    while k < |routes|
      invariant 0 <= k <= |routes|
      invariant Shorter(routes, addr, k, bestPrefix + 1)
      invariant best.None? ==> bestPrefix == -1
      invariant best.Some? ==> w < k && routes[w].Has(addr) && best.value == routes[w].hop && bestPrefix == routes[w].prefix
      invariant best.Some? ==> Shorter(routes, addr, w, bestPrefix)
    {
      var route := routes[k];
      var matches := MaskTest(addr, route.mask, route.net, route.prefix);
      ghost var was := bestPrefix;
      if matches && route.prefix > bestPrefix {
        assert Shorter(routes, addr, k, route.prefix);
        best, bestPrefix, w := Some(route.hop), route.prefix, k;
      }
      ShorterGrows(routes, addr, k, was + 1, bestPrefix + 1);
      k := k + 1;
    }
    if best.Some? { assert Winner(routes, addr, w); }
  }

  /** The winner is the most specific: its block lies inside every matching block. */
  lemma WinnerIsInnermost<Hop>(routes: seq<Route<Hop>>, addr: nat, i: nat, j: nat)
    requires GoodRoutes(routes)
    requires addr < LIMIT && Winner(routes, addr, i) && j < |routes| && routes[j].Has(addr)
    ensures forall x :: routes[i].Has(x) ==> routes[j].Has(x)
  {
    NestedOrApart(BlockOf(routes[j]), BlockOf(routes[i]), addr);
  }

  function BlockOf<Hop>(r: Route<Hop>): Subnet
    requires r.prefix <= 32
  {
    Subnet(r.prefix, r.mask, r.net, r.net + Size(r.prefix) - 1)
  }
}
