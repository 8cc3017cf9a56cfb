/**
  `vlsm_allocate` of os_net/comp_networking/examples/subnet_calculator.py: largest request first, each
  in the smallest block that covers it, one after the other from the parent's network address.
*/
module Vlsm {
  import opened NumberTheory
  import opened Ipv4
  import opened Subnets

  datatype Request = Request(name: string, hosts: int)

  datatype Entry = Entry(name: string, subnet: Subnet)

  datatype Outcome = Plan(entries: seq<Entry>) | OutOfSpace(name: string)

  // ---------- the smallest block for a request ----------

  /** How many hosts a block of this prefix length can number. */
  function Usable(prefix: nat): int
    requires prefix <= 32
  {
    if prefix >= 31 then Size(prefix) else Size(prefix) - 2
  }

  /** No longer prefix up to `longest` has room. */
  predicate TooSmallAbove(hosts: int, prefix: nat, longest: nat)
    requires longest <= 32
  {
    forall q: nat :: prefix < q <= longest ==> Usable(q) < hosts
  }

  /** The longest prefix with room, 0 if none has. */
  function Fit(hosts: int, longest: nat): (r: nat)
    requires longest <= 32
    ensures r <= longest && (r == 0 || Usable(r) >= hosts) && TooSmallAbove(hosts, r, longest)
  {
    if longest == 0 || Usable(longest) >= hosts then longest else Fit(hosts, longest - 1)
  }

  const LONGEST: nat := 32

  function PrefixFor(hosts: int): (r: nat)
    ensures r <= 32 && (r == 0 || Usable(r) >= hosts) && TooSmallAbove(hosts, r, 32)
  {
    Fit(hosts, LONGEST)
  }

  /** The size of the smallest block for one request. */
  function Block(hosts: int): nat { Size(PrefixFor(hosts)) }

  /** A request is covered by its block unless even /0 is too small. */
  lemma BlockCovers(hosts: int)
    ensures Usable(PrefixFor(hosts)) >= hosts <==> hosts <= LIMIT - 2
  {
    var p := PrefixFor(hosts);
    PowersOfTwo();
    assert Usable(0) == LIMIT - 2;
    SizeDivides(0, p);
    assert p >= 31 ==> Size(p) <= 2;
  }

  /** Any block that covers the request is at least as large. */
  lemma BlockMinimal(hosts: int, prefix: nat)
    requires prefix <= 32 && Usable(prefix) >= hosts
    ensures prefix <= PrefixFor(hosts) && Block(hosts) <= Size(prefix)
  {
    SizeDivides(prefix, PrefixFor(hosts));
  }

  lemma PrefixMonotone(more: int, fewer: int)
    requires more >= fewer
    ensures PrefixFor(more) <= PrefixFor(fewer)
  {
  }

  // ---------- the same by counting addresses ----------

  /** The addresses from a to b. */
  ghost function Range(a: int, b: int): (r: set<int>)
    ensures forall x :: x in r <==> a <= x <= b
    decreases b - a + 1
  {
    if a > b then {} else Range(a, b - 1) + {b}
  }

  lemma {:induction false} RangeSize(a: int, b: int)
    requires a <= b + 1
    ensures |Range(a, b)| == b - a + 1
    decreases b - a + 1
  {
    if a <= b {
      RangeSize(a, b - 1);
      assert b !in Range(a, b - 1);
    }
  }

  /** The addresses that hosts can have: all of a block of one or two, else all but the first and the last. */
  ghost function HostAddresses(s: Subnet): set<int> {
    if s.broadcast - s.network <= 1 then Range(s.network, s.broadcast) else Range(s.network + 1, s.broadcast - 1)
  }

  lemma SizeSteps(prefix: nat)
    requires prefix <= 32
    ensures prefix == 32 ==> Size(prefix) == 1
    ensures prefix == 31 ==> Size(prefix) == 2
    ensures prefix <= 30 ==> Size(prefix) >= 4
  {
    assert Pow(2, 0) == 1 && Pow(2, 1) == 2 && Pow(2, 2) == 4;
    if prefix <= 30 { PowMonotone(2, 2, 32 - prefix); }
  }

  /** `usable_hosts` counts them. */
  lemma UsableCounts(s: Subnet)
    requires Proper(s)
    ensures |HostAddresses(s)| == Usable(s.prefix) == s.UsableHosts()
  {
    SizeSteps(s.prefix);
    HostCount(s);
  }

  lemma HostCount(s: Subnet)
    requires s.network <= s.broadcast
    ensures |HostAddresses(s)| == s.broadcast - s.network + if s.broadcast - s.network <= 1 then 1 else -1
  {
    if s.broadcast - s.network <= 1 {
      RangeSize(s.network, s.broadcast);
    } else {
      RangeSize(s.network + 1, s.broadcast - 1);
    }
  }

  /** The block for a request in plain numbers: one address for at most one host, two for two, and
      otherwise the least power of two that leaves two addresses over, up to the whole address space. */
  lemma BlockIs(hosts: int)
    ensures hosts <= 1 ==> PrefixFor(hosts) == 32 && Block(hosts) == 1
    ensures hosts == 2 ==> PrefixFor(hosts) == 31 && Block(hosts) == 2
    ensures Block(hosts) == Pow(2, 32 - PrefixFor(hosts))
    ensures 3 <= hosts <= 0xFFFF_FFFE ==> Block(hosts) >= hosts + 2
    ensures 3 <= hosts <= 0xFFFF_FFFE ==> forall k: nat :: Pow(2, k) >= hosts + 2 ==> Block(hosts) <= Pow(2, k)
    ensures hosts > 0xFFFF_FFFE ==> Block(hosts) == 0x1_0000_0000
  {
    var p := PrefixFor(hosts);
    SizeSteps(p);
    SizeSteps(32);
    SizeSteps(31);
    PowersOfTwo();
    assert Usable(32) == 1 && Usable(31) == 2;
    BlockCovers(hosts);
    if hosts > 0xFFFF_FFFE && p > 0 { AtMostAll(p); }
    if 3 <= hosts <= 0xFFFF_FFFE {
      forall k: nat | Pow(2, k) >= hosts + 2
        ensures Block(hosts) <= Pow(2, k)
      {
        LeastPower(hosts, k);
      }
    }
  }

  lemma PrefixIs(hosts: int)
    ensures hosts <= 1 ==> PrefixFor(hosts) == 32
    ensures hosts == 2 ==> PrefixFor(hosts) == 31
    ensures 3 <= hosts <= 0xFFFF_FFFE ==>
              PrefixFor(hosts) <= 30 && Pow(2, 32 - PrefixFor(hosts)) - 2 >= hosts > Pow(2, 31 - PrefixFor(hosts)) - 2
    ensures hosts > 0xFFFF_FFFE ==> PrefixFor(hosts) == 0
  {
    var p := PrefixFor(hosts);
    BlockIs(hosts);
    if 3 <= hosts <= 0xFFFF_FFFE {
      SizeSteps(p);
      var k: nat := 31 - p;
      assert Pow(2, 32 - p) == 2 * Pow(2, k);
      PowPositive(2, k);
      assert Pow(2, k) >= hosts + 2 ==> Block(hosts) <= Pow(2, k);
    }
    if hosts > 0xFFFF_FFFE && p > 0 { SmallerThanAll(p); }
  }

  lemma SmallerThanAll(prefix: nat)
    requires 1 <= prefix <= 32
    ensures Size(prefix) < LIMIT
  {
    PowersOfTwo();
    PowMonotone(2, 32 - prefix, 31);
  }

  lemma LeastPower(hosts: int, k: nat)
    requires 3 <= hosts <= 0xFFFF_FFFE && Pow(2, k) >= hosts + 2
    ensures Block(hosts) <= Pow(2, k)
  {
    PowersOfTwo();
    if k > 32 {
      PowMonotone(2, 32, k);
      PowMonotone(2, 32 - PrefixFor(hosts), 32);
    } else {
      SizeSteps(32 - k);
      BlockMinimal(hosts, 32 - k);
    }
  }

  lemma AtMostAll(prefix: nat)
    requires prefix <= 32
    ensures Usable(prefix) <= LIMIT - 2
  {
    PowersOfTwo();
    SizeDivides(0, prefix);
    assert prefix >= 31 ==> Size(prefix) <= 2;
  }

  // ---------- sorted(..., key=hosts, reverse=True) ----------

  function Insert(r: Request, s: seq<Request>): seq<Request> {
    if s == [] || r.hosts >= s[0].hosts then [r] + s else [s[0]] + Insert(r, s[1..])
  }

  function Sort(s: seq<Request>): seq<Request> {
    if s == [] then [] else Insert(s[0], Sort(s[1..]))
  }

  predicate Descending(s: seq<Request>) {
    |s| <= 1 || (s[0].hosts >= s[1].hosts && Descending(s[1..]))
  }

  function Need(s: seq<Request>): nat {
    if s == [] then 0 else Block(s[0].hosts) + Need(s[1..])
  }

  /** The requests for exactly this many hosts, in order. */
  function Same(s: seq<Request>, hosts: int): seq<Request> {
    if s == [] then [] else (if s[0].hosts == hosts then [s[0]] else []) + Same(s[1..], hosts)
  }

  lemma {:induction false} InsertKeeps(r: Request, s: seq<Request>)
    requires Descending(s)
    ensures Descending(Insert(r, s)) && Need(Insert(r, s)) == Block(r.hosts) + Need(s)
    ensures |Insert(r, s)| == |s| + 1
  {
    if s == [] || r.hosts >= s[0].hosts {
      assert ([r] + s)[1..] == s;
    } else {
      InsertKeeps(r, s[1..]);
      var t := [s[0]] + Insert(r, s[1..]);
      assert t[1..] == Insert(r, s[1..]);
    }
  }

  lemma {:induction false} InsertAdds(r: Request, s: seq<Request>)
    ensures multiset(Insert(r, s)) == multiset{r} + multiset(s)
  {
    if s != [] && r.hosts < s[0].hosts {
      InsertAdds(r, s[1..]);
      assert s == [s[0]] + s[1..];
    }
  }

  lemma {:induction false} InsertStable(r: Request, s: seq<Request>, h: int)
    requires Descending(s)
    ensures Same(Insert(r, s), h) == Same([r] + s, h)
  {
    assert ([r] + s)[1..] == s;
    if s != [] && r.hosts < s[0].hosts {
      InsertStable(r, s[1..], h);
      var t := [s[0]] + Insert(r, s[1..]);
      assert t[1..] == Insert(r, s[1..]);
      assert ([r] + s[1..])[1..] == s[1..];
    }
  }

  /** By falling host count. */
  lemma {:induction false} SortSorts(s: seq<Request>)
    ensures Descending(Sort(s)) && |Sort(s)| == |s| && Need(Sort(s)) == Need(s)
  {
    if s != [] {
      SortSorts(s[1..]);
      InsertKeeps(s[0], Sort(s[1..]));
    }
  }

  /** Nothing is lost or added. */
  lemma {:induction false} SortPermutes(s: seq<Request>)
    ensures multiset(Sort(s)) == multiset(s)
  {
    if s != [] {
      SortPermutes(s[1..]);
      InsertAdds(s[0], Sort(s[1..]));
      assert s == [s[0]] + s[1..];
    }
  }

  /** Equal requests keep their order. */
  lemma {:induction false} SortStable(s: seq<Request>, h: int)
    ensures Same(Sort(s), h) == Same(s, h)
  {
    if s != [] {
      var t := Sort(s[1..]);
      SortSorts(s[1..]);
      SortStable(s[1..], h);
      InsertStable(s[0], t, h);
      assert ([s[0]] + t)[1..] == t;
    }
  }

  // ---------- the loop ----------

  function Placed(cursor: nat, hosts: int): (s: Subnet)
    ensures 0 <= s.broadcast < LIMIT
  {
    CidrProper(cursor % LIMIT, PrefixFor(hosts));
    Cidr(cursor % LIMIT, PrefixFor(hosts))
  }

  lemma PlacedProper(cursor: nat, hosts: int)
    ensures Proper(Placed(cursor, hosts)) && Placed(cursor, hosts).Has(cursor % LIMIT)
    ensures Placed(cursor, hosts).prefix == PrefixFor(hosts)
  {
    CidrProper(cursor % LIMIT, PrefixFor(hosts));
  }

  function Prepend(es: seq<Entry>, r: Outcome): Outcome {
    if r.Plan? then Plan(es + r.entries) else r
  }

  /** The rest of the loop: only the upper end is compared with the parent's. */
  function Allocate(last: int, reqs: seq<Request>, cursor: nat): Outcome {
    if reqs == [] then Plan([])
    else
      var sub := Placed(cursor, reqs[0].hosts);
      if sub.broadcast > last then OutOfSpace(reqs[0].name)
      else Prepend([Entry(reqs[0].name, sub)], Allocate(last, reqs[1..], sub.broadcast + 1))
  }

  function Vlsm(parent: Subnet, requests: seq<Request>): Outcome
    requires Proper(parent)
  {
    Allocate(parent.broadcast, Sort(requests), parent.network)
  }

  /** The inner loop. */
  method FindPrefix(cursor: nat, hosts: int) returns (prefix: nat)
    ensures prefix == PrefixFor(hosts)
    ensures hosts <= 1 ==> prefix == 32
    ensures hosts == 2 ==> prefix == 31
    ensures 3 <= hosts <= 0xFFFF_FFFE ==> prefix <= 30 && Pow(2, 32 - prefix) - 2 >= hosts > Pow(2, 31 - prefix) - 2
    ensures hosts > 0xFFFF_FFFE ==> prefix == 0
  {
    PrefixIs(hosts);
    prefix := 32;
    while prefix > 0
      invariant prefix <= 32 && Fit(hosts, prefix) == PrefixFor(hosts)
    {
      var test := NewSubnet(cursor, prefix);
      assert test.UsableHosts() == Usable(prefix);
      if test.UsableHosts() >= hosts {
        break;
      }
      prefix := prefix - 1;
    }
  }

  method Place(cursor: nat, hosts: int) returns (sub: Subnet)
    ensures sub == Placed(cursor, hosts)
  {
    var prefix := FindPrefix(cursor, hosts);
    sub := NewSubnet(cursor, prefix);
  }

  /** The outer loop. */
  method AllocateAll(last: int, reqs: seq<Request>, start: nat) returns (r: Outcome)
    ensures r == Allocate(last, reqs, start)
  {
    var cursor: nat, out: seq<Entry>, i := start, [], 0;
    ghost var whole := Allocate(last, reqs, start);
    assert reqs[0..] == reqs;
    PrependNone(whole);
    while i < |reqs|
      invariant 0 <= i <= |reqs|
      invariant Prepend(out, Allocate(last, reqs[i..], cursor)) == whole
    {
      var req := reqs[i];
      var sub := Place(cursor, req.hosts);
      AllocateStep(last, reqs, i, cursor, out);
      if sub.broadcast > last {
        return OutOfSpace(req.name);
      }
      out := out + [Entry(req.name, sub)];
      cursor := sub.broadcast + 1;
      i := i + 1;
    }
    assert out + [] == out;
    r := Plan(out);
  }

  /** `vlsm_allocate` */
  method VlsmAllocate(ip: nat, prefix: nat, requests: seq<Request>) returns (r: Outcome)
    requires ip < LIMIT && prefix <= 32
    ensures Proper(Cidr(ip, prefix)) && r == Vlsm(Cidr(ip, prefix), requests)
  {
    CidrProper(ip, prefix);
    var parent := Construct(ip, prefix);
    r := AllocateAll(parent.broadcast, Sort(requests), parent.network);
  }

  /** One turn of the loop, on what remains. */
  lemma AllocateStep(last: int, reqs: seq<Request>, i: nat, cursor: nat, out: seq<Entry>)
    requires i < |reqs|
    ensures Prepend(out, Allocate(last, reqs[i..], cursor)) == (
              var sub := Placed(cursor, reqs[i].hosts);
              if sub.broadcast > last then OutOfSpace(reqs[i].name)
              else Prepend(out + [Entry(reqs[i].name, sub)], Allocate(last, reqs[i + 1..], sub.broadcast + 1)))
  {
    var sub := Placed(cursor, reqs[i].hosts);
    assert reqs[i..][0] == reqs[i] && reqs[i..][1..] == reqs[i + 1..];
    PrependTwice(out, [Entry(reqs[i].name, sub)], Allocate(last, reqs[i + 1..], sub.broadcast + 1));
  }

  lemma PrependNone(r: Outcome)
    ensures Prepend([], r) == r
  {
    if r.Plan? { assert [] + r.entries == r.entries; }
  }

  lemma PrependTwice(a: seq<Entry>, b: seq<Entry>, r: Outcome)
    ensures Prepend(a, Prepend(b, r)) == Prepend(a + b, r)
  {
    if r.Plan? { assert a + (b + r.entries) == (a + b) + r.entries; }
  }

  // ---------- enough room: the blocks are packed ----------

  /** The entry has the request's name and a block of the smallest sufficient size. */
  predicate Answers(e: Entry, r: Request) {
    e.name == r.name && Proper(e.subnet) && e.subnet.prefix == PrefixFor(r.hosts)
  }

  /** The entries answer the requests in order, with the smallest blocks, end to end from start. */
  predicate Packed(reqs: seq<Request>, es: seq<Entry>, start: int) {
    if reqs == [] then es == []
    else es != [] && Answers(es[0], reqs[0]) && es[0].subnet.network == start
         && Packed(reqs[1..], es[1..], start + Block(reqs[0].hosts))
  }

  /** The cursor is a multiple of the next block's size. */
  predicate Ready(reqs: seq<Request>, cursor: nat) {
    reqs != [] ==> cursor % Block(reqs[0].hosts) == 0
  }

  lemma NextReady(reqs: seq<Request>, cursor: nat)
    requires reqs != [] && Descending(reqs) && Ready(reqs, cursor)
    ensures Ready(reqs[1..], cursor + Block(reqs[0].hosts))
  {
    if |reqs| > 1 {
      PrefixMonotone(reqs[0].hosts, reqs[1].hosts);
      var b := Block(reqs[0].hosts);
      SumOfMultiples(cursor, b, b);
      AlignedDown(cursor + b, PrefixFor(reqs[0].hosts), PrefixFor(reqs[1].hosts));
    }
  }

  lemma PlacedAligned(cursor: nat, hosts: int)
    requires cursor < LIMIT && cursor % Block(hosts) == 0
    ensures Placed(cursor, hosts).network == cursor && Placed(cursor, hosts).prefix == PrefixFor(hosts)
    ensures Proper(Placed(cursor, hosts))
    ensures Placed(cursor, hosts).broadcast + 1 == cursor + Block(hosts)
  {
    AlignedBlock(cursor, PrefixFor(hosts));
  }

  lemma {:induction false} EnoughRoom(last: int, reqs: seq<Request>, cursor: nat)
    requires last < LIMIT && Descending(reqs) && Ready(reqs, cursor) && cursor + Need(reqs) <= last + 1
    ensures Allocate(last, reqs, cursor).Plan? && Packed(reqs, Allocate(last, reqs, cursor).entries, cursor)
    decreases reqs
  {
    if reqs != [] {
      PlacedAligned(cursor, reqs[0].hosts);
      NextReady(reqs, cursor);
      var next := cursor + Block(reqs[0].hosts);
      EnoughRoom(last, reqs[1..], next);
      var rest := Allocate(last, reqs[1..], next).entries;
      var e := Entry(reqs[0].name, Placed(cursor, reqs[0].hosts));
      assert ([e] + rest)[1..] == rest;
    }
  }

  lemma {:induction false} TooLittleRoom(last: int, reqs: seq<Request>, cursor: nat)
    requires last < LIMIT - 1 && Descending(reqs) && Ready(reqs, cursor)
    requires cursor <= last + 1 && (reqs != [] ==> (last + 1) % Block(reqs[0].hosts) == 0)
    requires cursor + Need(reqs) > last + 1
    ensures Allocate(last, reqs, cursor).OutOfSpace?
    decreases reqs
  {
    var b := Block(reqs[0].hosts);
    PlacedAligned(cursor, reqs[0].hosts);
    if cursor < last + 1 {
      StepFits(cursor, last + 1, b);
      NextReady(reqs, cursor);
      if |reqs| > 1 {
        PrefixMonotone(reqs[0].hosts, reqs[1].hosts);
        AlignedDown(last + 1, PrefixFor(reqs[0].hosts), PrefixFor(reqs[1].hosts));
      }
      TooLittleRoom(last, reqs[1..], cursor + b);
    }
  }

  // ---------- any allocation at all ----------

  /** Some order of blocks inside the parent, pairwise disjoint, the i-th with room for the i-th request. */
  ghost predicate Serves(parent: Subnet, reqs: seq<Request>, subs: seq<Subnet>) {
    |subs| == |reqs| && Inside(parent, subs) && Disjoint(subs)
    && (forall i :: 0 <= i < |subs| ==> Covers(subs[i], reqs[i]))
  }

  /** There are at least as many host addresses as hosts. */
  ghost predicate Covers(s: Subnet, r: Request) { Proper(s) && |HostAddresses(s)| >= r.hosts }

  ghost predicate Inside(parent: Subnet, subs: seq<Subnet>) {
    forall i :: 0 <= i < |subs| ==> parent.network <= subs[i].network && subs[i].broadcast <= parent.broadcast
  }

  ghost predicate Disjoint(subs: seq<Subnet>) {
    forall i, j :: 0 <= i < j < |subs| ==> Apart(subs[i], subs[j]) || Apart(subs[j], subs[i])
  }

  ghost function Union(subs: seq<Subnet>): set<int> {
    if subs == [] then {} else Range(subs[0].network, subs[0].broadcast) + Union(subs[1..])
  }

  lemma {:induction false} UnionMember(subs: seq<Subnet>, x: int)
    ensures x in Union(subs) <==> Covered(subs, x)
  {
    if subs != [] {
      UnionMember(subs[1..], x);
      if i :| 0 <= i < |subs| && subs[i].Has(x) {
        if i > 0 { assert subs[1..][i - 1].Has(x); }
      }
      if i :| 0 <= i < |subs[1..]| && subs[1..][i].Has(x) {
        assert subs[i + 1].Has(x);
      }
    }
  }

  lemma FirstIsApart(subs: seq<Subnet>, x: int)
    requires subs != [] && Disjoint(subs) && Covered(subs[1..], x)
    ensures !subs[0].Has(x)
  {
    var i :| 0 <= i < |subs[1..]| && subs[1..][i].Has(x);
    assert subs[i + 1].Has(x);
    assert Apart(subs[0], subs[i + 1]) || Apart(subs[i + 1], subs[0]);
  }

  /** Disjoint blocks with room for the requests have at least Need addresses between them. */
  lemma {:induction false} UnionSize(reqs: seq<Request>, subs: seq<Subnet>)
    requires |subs| == |reqs| && Disjoint(subs) && (forall i :: 0 <= i < |subs| ==> Covers(subs[i], reqs[i]))
    ensures |Union(subs)| >= Need(reqs)
  {
    if subs != [] {
      UnionSize(reqs[1..], subs[1..]);
      var first := subs[0];
      assert Covers(first, reqs[0]);
      UsableCounts(first);
      BlockMinimal(reqs[0].hosts, first.prefix);
      RangeSize(first.network, first.broadcast);
      forall x | x in Union(subs[1..])
        ensures x !in Range(first.network, first.broadcast)
      {
        UnionMember(subs[1..], x);
        FirstIsApart(subs, x);
      }
      assert Range(first.network, first.broadcast) !! Union(subs[1..]);
    }
  }

  predicate Small(reqs: seq<Request>) { forall i :: 0 <= i < |reqs| ==> reqs[i].hosts <= LIMIT - 2 }

  /** If any disjoint allocation exists, the minimal blocks fit the parent. */
  lemma ServedFits(parent: Subnet, reqs: seq<Request>, subs: seq<Subnet>)
    requires Proper(parent) && Serves(parent, reqs, subs)
    ensures Need(reqs) <= Size(parent.prefix) && Small(reqs)
  {
    UnionSize(reqs, subs);
    RangeSize(parent.network, parent.broadcast);
    forall x | x in Union(subs)
      ensures x in Range(parent.network, parent.broadcast)
    {
      UnionMember(subs, x);
    }
    SubsetSize(Union(subs), Range(parent.network, parent.broadcast));
    forall i | 0 <= i < |reqs|
      ensures reqs[i].hosts <= LIMIT - 2
    {
      assert Covers(subs[i], reqs[i]);
      UsableCounts(subs[i]);
      AtMostAll(subs[i].prefix);
    }
  }

  lemma {:induction false} SubsetSize<T>(a: set<T>, b: set<T>)
    requires a <= b
    ensures |a| <= |b|
    decreases a
  {
    if |a| != 0 {
      var x :| x in a;
      SubsetSize(a - {x}, b - {x});
    }
  }

  function Subs(es: seq<Entry>): (r: seq<Subnet>)
    ensures |r| == |es|
  {
    seq(|es|, i requires 0 <= i < |es| => es[i].subnet)
  }

  lemma {:induction false} PackedIs(reqs: seq<Request>, es: seq<Entry>, start: nat)
    requires Packed(reqs, es, start)
    ensures |es| == |reqs| && EndToEnd(Subs(es), start, start + Need(reqs))
    ensures forall i :: 0 <= i < |es| ==> Answers(es[i], reqs[i])
    decreases reqs
  {
    if reqs != [] {
      PackedIs(reqs[1..], es[1..], start + Block(reqs[0].hosts));
      assert Subs(es)[1..] == Subs(es[1..]);
      forall i | 0 <= i < |es|
        ensures Answers(es[i], reqs[i])
      {
        if i > 0 { assert es[i] == es[1..][i - 1] && reqs[i] == reqs[1..][i - 1]; }
      }
    }
  }

  /** Packed blocks that fit the parent are an allocation, if every request is within reach. */
  lemma PackedServes(parent: Subnet, reqs: seq<Request>, es: seq<Entry>)
    requires Proper(parent) && Packed(reqs, es, parent.network) && Need(reqs) <= Size(parent.prefix) && Small(reqs)
    ensures Serves(parent, reqs, Subs(es))
  {
    PackedIs(reqs, es, parent.network);
    EndToEndTiles(Subs(es), parent.network, parent.network + Need(reqs));
    forall i | 0 <= i < |es|
      ensures Covers(Subs(es)[i], reqs[i])
    {
      assert Subs(es)[i] == es[i].subnet && Answers(es[i], reqs[i]);
      BlockCovers(reqs[i].hosts);
      UsableCounts(Subs(es)[i]);
    }
  }

  // ---------- the theorems ----------

  lemma StartReady(parent: Subnet, reqs: seq<Request>)
    requires Proper(parent) && (reqs != [] ==> Block(reqs[0].hosts) <= Size(parent.prefix))
    ensures Ready(reqs, parent.network)
    ensures reqs != [] ==> (parent.broadcast + 1) % Block(reqs[0].hosts) == 0
  {
    if reqs != [] {
      LargerIsShorter(PrefixFor(reqs[0].hosts), parent.prefix);
      EndAligned(parent, PrefixFor(reqs[0].hosts));
    }
  }

  lemma LargerIsShorter(p: nat, q: nat)
    requires p <= 32 && q <= 32 && Size(p) <= Size(q)
    ensures q <= p
  {
    if p < q { ShorterIsLarger(p, q); }
  }

  lemma ShorterIsLarger(p: nat, q: nat)
    requires p < q <= 32
    ensures Size(q) < Size(p)
  {
    PowMonotone(2, 32 - q, 31 - p);
    assert Pow(2, 32 - p) == 2 * Pow(2, 31 - p);
  }

  /** When the minimal blocks fit, the plan is packed: aligned, in order, end to end, inside. */
  lemma VlsmPacks(parent: Subnet, requests: seq<Request>)
    requires Proper(parent) && Need(requests) <= Size(parent.prefix)
    ensures Vlsm(parent, requests).Plan? && Packed(Sort(requests), Vlsm(parent, requests).entries, parent.network)
  {
    SortSorts(requests);
    StartReady(parent, Sort(requests));
    EnoughRoom(parent.broadcast, Sort(requests), parent.network);
  }

  lemma SmallSort(s: seq<Request>)
    ensures Small(Sort(s)) <==> Small(s)
  {
    SortPermutes(s);
    if Small(s) { SmallReordered(s, Sort(s)); }
    if Small(Sort(s)) { SmallReordered(Sort(s), s); }
  }

  lemma SmallReordered(s: seq<Request>, t: seq<Request>)
    requires multiset(s) == multiset(t) && Small(s)
    ensures Small(t)
  {
    forall i | 0 <= i < |t|
      ensures t[i].hosts <= LIMIT - 2
    {
      assert t[i] in multiset(t);
      assert t[i] in s;
    }
  }

  ghost predicate Works(parent: Subnet, requests: seq<Request>)
    requires Proper(parent)
  {
    var r := Vlsm(parent, requests);
    r.Plan? && Serves(parent, Sort(requests), Subs(r.entries))
  }

  /** It works exactly when the sizes add up: the order and the alignment cost nothing. */
  lemma WorksIff(parent: Subnet, requests: seq<Request>)
    requires Proper(parent)
    ensures Works(parent, requests) <==> Need(requests) <= Size(parent.prefix) && Small(requests)
  {
    SortSorts(requests);
    SmallSort(requests);
    if Need(requests) <= Size(parent.prefix) && Small(requests) {
      VlsmPacks(parent, requests);
      PackedServes(parent, Sort(requests), Vlsm(parent, requests).entries);
    }
    if Works(parent, requests) {
      ServedFits(parent, Sort(requests), Subs(Vlsm(parent, requests).entries));
    }
  }

  /** Whenever any disjoint allocation exists, however clever, this one works. */
  lemma WorksWheneverPossible(parent: Subnet, requests: seq<Request>, subs: seq<Subnet>)
    requires Proper(parent) && Serves(parent, requests, subs)
    ensures Works(parent, requests)
  {
    ServedFits(parent, requests, subs);
    WorksIff(parent, requests);
  }

  // ---------- when the assertion fires ----------

  lemma {:induction false} NeverAtTheTop(reqs: seq<Request>, cursor: nat)
    ensures Allocate(LIMIT - 1, reqs, cursor).Plan?
    decreases reqs
  {
    if reqs != [] {
      NeverAtTheTop(reqs[1..], Placed(cursor, reqs[0].hosts).broadcast + 1);
    }
  }

  /** A block larger than the parent: it ends where the parent ends, or beyond. */
  lemma LargeFirst(parent: Subnet, hosts: int)
    requires Proper(parent) && Block(hosts) > Size(parent.prefix)
    ensures var s := Placed(parent.network, hosts);
            parent.broadcast <= s.broadcast
            && (s.broadcast == parent.broadcast <==> (parent.broadcast + 1) % Block(hosts) == 0)
  {
    var s := Placed(parent.network, hosts);
    ModSmall(parent.network, LIMIT);
    PlacedProper(parent.network, hosts);
    if s.prefix > parent.prefix { SizeDivides(parent.prefix, s.prefix); }
    NestedOrApart(s, parent, parent.network);
    var b := Block(hosts);
    SumOfMultiples(s.network, b, b);
    if (parent.broadcast + 1) % b == 0 {
      GapOfMultiples(s.network + b, parent.broadcast + 1, b);
    }
  }

  lemma {:induction false} PastTheEnd(last: nat, reqs: seq<Request>)
    requires last < LIMIT - 1
    ensures Allocate(last, reqs, last + 1).OutOfSpace? <==> reqs != []
  {
    if reqs != [] {
      ModSmall(last + 1, LIMIT);
      PlacedProper(last + 1, reqs[0].hosts);
    }
  }

  /** One request too large for the parent, whose block happens to end where the parent does. */
  predicate Overhangs(parent: Subnet, reqs: seq<Request>) {
    |reqs| == 1 && (parent.broadcast + 1) % Block(reqs[0].hosts) == 0
  }

  lemma NeedOne(reqs: seq<Request>)
    ensures |reqs| == 1 ==> Need(reqs) == Block(reqs[0].hosts) && Sort(reqs) == reqs
  {
    if |reqs| == 1 { assert reqs[1..] == []; }
  }

  lemma FailsSmallFirst(parent: Subnet, reqs: seq<Request>)
    requires Proper(parent) && Descending(reqs) && parent.broadcast < LIMIT - 1 && Need(reqs) > Size(parent.prefix)
    requires reqs != [] && Block(reqs[0].hosts) <= Size(parent.prefix)
    ensures Allocate(parent.broadcast, reqs, parent.network).OutOfSpace?
  {
    StartReady(parent, reqs);
    TooLittleRoom(parent.broadcast, reqs, parent.network);
  }

  lemma FailsLargeFirst(parent: Subnet, reqs: seq<Request>)
    requires Proper(parent) && parent.broadcast < LIMIT - 1 && reqs != []
    requires Block(reqs[0].hosts) > Size(parent.prefix)
    ensures Allocate(parent.broadcast, reqs, parent.network).OutOfSpace? <==> !Overhangs(parent, reqs)
  {
    LargeFirst(parent, reqs[0].hosts);
    PastTheEnd(parent.broadcast, reqs[1..]);
  }

  lemma FailsSorted(parent: Subnet, reqs: seq<Request>)
    requires Proper(parent) && Descending(reqs) && parent.broadcast < LIMIT - 1 && Need(reqs) > Size(parent.prefix)
    ensures Allocate(parent.broadcast, reqs, parent.network).OutOfSpace? <==> !Overhangs(parent, reqs)
  {
    if Block(reqs[0].hosts) <= Size(parent.prefix) {
      FailsSmallFirst(parent, reqs);
      NeedOne(reqs);
    } else {
      FailsLargeFirst(parent, reqs);
    }
  }

  lemma {:induction false} OverhangsSort(parent: Subnet, s: seq<Request>)
    ensures Overhangs(parent, Sort(s)) <==> Overhangs(parent, s)
  {
    SortSorts(s);
    NeedOne(s);
  }

  /** "Ran out of space" exactly when the blocks do not fit, except that a parent ending at
      255.255.255.255 never runs out (the cursor wraps), and a single overhanging request is let
      through: only the upper end is checked. */
  lemma FailsIff(parent: Subnet, requests: seq<Request>)
    requires Proper(parent)
    ensures Vlsm(parent, requests).OutOfSpace?
       <==> Need(requests) > Size(parent.prefix) && parent.broadcast != LIMIT - 1 && !Overhangs(parent, requests)
  {
    SortSorts(requests);
    OverhangsSort(parent, requests);
    if parent.broadcast == LIMIT - 1 {
      NeverAtTheTop(Sort(requests), parent.network);
    } else if Need(requests) <= Size(parent.prefix) {
      VlsmPacks(parent, requests);
    } else {
      FailsSorted(parent, Sort(requests));
    }
  }

  /** 10.0.1.0/24 asked for 300 hosts: accepted, with 10.0.0.0/23, which starts below the parent. */
  lemma EscapesBelow(parent: Subnet, request: Request)
    requires Proper(parent) && parent.prefix == 24 && parent.network == 0x0A00_0100 && request.hosts == 300
    ensures Vlsm(parent, [request]).Plan? && !Works(parent, [request])
    ensures Placed(parent.network, 300).network == 0x0A00_0000
  {
    ThreeHundred();
    FloorIsMod(0x0A00_0100, 512);
    NeedOne([request]);
    FailsIff(parent, [request]);
    WorksIff(parent, [request]);
  }

  lemma FewerThan(prefix: nat)
    requires 24 <= prefix <= 32
    ensures Usable(prefix) <= 256
  {
    PowersOfTwo();
    SizeDivides(24, prefix);
  }

  lemma ThreeHundred()
    ensures PrefixFor(300) == 23 && Size(23) == 512 && Size(24) == 256
  {
    PowersOfTwo();
    assert Size(24) == 256 && Size(23) == 2 * Pow(2, 8);
    assert Usable(23) == 510;
    var p := PrefixFor(300);
    if p > 23 { FewerThan(p); }
  }
}
