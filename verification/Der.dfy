/** The DER helpers of os_net/comp_networking/examples/tls_inspect.py, and a reader that undoes them. */
module Der {
  import opened Bytes
  import opened NumberTheory
  import opened Wrappers

  /** `_der_len`: short form below 128, else the count of length bytes and the length itself. */
  function DerLen(n: nat): (r: seq<byte>)
    requires ByteLength(n) < 127
  {
    if n < 0x80 then [n] else [0x80 + ByteLength(n)] + ToBytes(n, ByteLength(n))
  }

  /** From 128 on: 128 more than the count of length bytes, then the length, big-endian and without a
      leading zero. */
  lemma LongLength(n: nat)
    requires n >= 128 && ByteLength(n) < 127
    ensures var r := DerLen(n);
            |r| >= 2 && r[0] == 128 + |r[1..]| && FromBytes(r[1..]) == n && r[1] > 0
  {
    var k := ByteLength(n);
    LengthRead(n);
    ByteLengthBounds(n);
    assert DerLen(n)[1..] == ToBytes(n, k);
    BigEndian(n, k, 0);
    TopDigit(n, k);
  }

  lemma TopDigit(n: nat, k: nat)
    requires k > 0 && Pow(256, k - 1) <= n < Pow(256, k)
    ensures Pow(256, k - 1) > 0 && 0 < n / Pow(256, k - 1) < 256
  {
    var p := Pow(256, k - 1);
    var q := n / p;
    assert n == p * q + n % p;
    assert q >= 256 ==> p * q >= p * 256;
  }

  /** `_der` */
  function Tlv(tag: byte, body: seq<byte>): seq<byte>
    requires ByteLength(|body|) < 127
  {
    [tag] + DerLen(|body|) + body
  }

  datatype Value = Value(tag: byte, body: seq<byte>, rest: seq<byte>)

  /** Reads one tag-length-value triple off the front. */
  function ParseDer(s: seq<byte>): Option<Value> {
    if |s| < 2 then None
    else if s[1] < 0x80 then Body(s[0], s[1], s[2..])
    else
      var k := s[1] - 0x80;
      if |s| < 2 + k then None else Body(s[0], FromBytes(s[2..2 + k]), s[2 + k..])
  }

  function Body(tag: byte, n: nat, s: seq<byte>): Option<Value> {
    if |s| < n then None else Some(Value(tag, s[..n], s[n..]))
  }

  lemma BodyRead(tag: byte, body: seq<byte>, rest: seq<byte>)
    ensures Body(tag, |body|, body + rest) == Some(Value(tag, body, rest))
  {
    assert (body + rest)[..|body|] == body && (body + rest)[|body|..] == rest;
  }

  lemma LongParts<T>(tag: T, k: T, len: seq<T>, tail: seq<T>)
    ensures var s := [tag] + ([k] + len) + tail;
            && |s| == 2 + |len| + |tail| && s[0] == tag && s[1] == k
            && s[2..2 + |len|] == len && s[2 + |len|..] == tail
  {
  }

  lemma LongHeader(tag: byte, len: seq<byte>, tail: seq<byte>)
    requires |len| < 127
    ensures ParseDer([tag] + ([0x80 + |len|] + len) + tail) == Body(tag, FromBytes(len), tail)
  {
    LongParts<byte>(tag, 0x80 + |len|, len, tail);
  }

  lemma ShortHeader(tag: byte, n: byte, tail: seq<byte>)
    requires n < 0x80
    ensures ParseDer([tag] + [n] + tail) == Body(tag, n, tail)
  {
    assert ([tag] + [n] + tail)[2..] == tail;
  }

  lemma LengthRead(n: nat)
    ensures FromBytes(ToBytes(n, ByteLength(n))) == n
  {
    ByteLengthBounds(n);
    FromTo(n, ByteLength(n));
  }

  lemma Assoc(a: seq<byte>, b: seq<byte>, c: seq<byte>)
    ensures (a + b) + c == a + (b + c)
  {
  }

  /** Whatever follows it, an encoded value is read back whole. */
  lemma DerRoundTrip(tag: byte, body: seq<byte>, rest: seq<byte>)
    requires ByteLength(|body|) < 127
    ensures ParseDer(Tlv(tag, body) + rest) == Some(Value(tag, body, rest))
  {
    var n := |body|;
    Assoc([tag] + DerLen(n), body, rest);
    BodyRead(tag, body, rest);
    if n < 0x80 {
      ShortHeader(tag, n, body + rest);
    } else {
      LengthRead(n);
      LongHeader(tag, ToBytes(n, ByteLength(n)), body + rest);
    }
  }

  // ---------- object identifiers ----------

  /** The base-128 digits of q, all marked as continued. */
  function Continued(q: nat): seq<byte> {
    if q == 0 then [] else Continued(q / 128) + [128 + q % 128]
  }

  /** One arc: base-128 digits, every one but the last marked. */
  function Arc(p: nat): seq<byte> {
    Continued(p / 128) + [p % 128]
  }

  function Arcs(parts: seq<nat>): seq<byte> {
    if parts == [] then [] else Arcs(parts[..|parts| - 1]) + Arc(parts[|parts| - 1])
  }

  function OidBody(parts: seq<nat>): seq<byte>
    requires |parts| >= 2 && parts[0] * 40 + parts[1] < 256
  {
    [parts[0] * 40 + parts[1]] + Arcs(parts[2..])
  }

  /** Reads the arcs back; `acc` is the value of the arc begun. */
  function ReadArcs(s: seq<byte>, acc: nat): seq<nat> {
    if s == [] then []
    else if s[0] >= 128 then ReadArcs(s[1..], acc * 128 + s[0] - 128)
    else [acc * 128 + s[0]] + ReadArcs(s[1..], 0)
  }

  lemma {:induction false} ReadContinued(q: nat, s: seq<byte>)
    ensures ReadArcs(Continued(q) + s, 0) == ReadArcs(s, q)
  {
    if q == 0 {
      assert Continued(q) + s == s;
    } else {
      var x: byte := 128 + q % 128;
      assert Continued(q) + s == Continued(q / 128) + ([x] + s);
      ReadContinued(q / 128, [x] + s);
      assert ([x] + s)[1..] == s;
    }
  }

  lemma ReadArc(p: nat, s: seq<byte>)
    ensures ReadArcs(Arc(p) + s, 0) == [p] + ReadArcs(s, 0)
  {
    var x: byte := p % 128;
    assert Arc(p) + s == Continued(p / 128) + ([x] + s);
    ReadContinued(p / 128, [x] + s);
    assert ([x] + s)[1..] == s;
  }

  /** Reading undoes writing, for every sequence of arcs. */
  lemma {:induction false} ArcsRoundTrip(parts: seq<nat>, s: seq<byte>)
    ensures ReadArcs(Arcs(parts) + s, 0) == parts + ReadArcs(s, 0)
  {
    if parts == [] {
      assert Arcs(parts) + s == s;
    } else {
      var front, last := parts[..|parts| - 1], parts[|parts| - 1];
      assert Arcs(parts) + s == Arcs(front) + (Arc(last) + s);
      ArcsRoundTrip(front, Arc(last) + s);
      ReadArc(last, s);
      assert parts == front + [last];
    }
  }

  /** The 7-bit groups of p, least significant first. */
  function Groups(p: nat): (g: seq<byte>)
    ensures forall i :: 0 <= i < |g| ==> g[i] < 128
  {
    if p == 0 then [] else [p % 128] + Groups(p / 128)
  }

  /** Groups emitted most significant first, all marked. */
  function MarkedReverse(g: seq<byte>): seq<byte>
    requires forall i :: 0 <= i < |g| ==> g[i] < 128
  {
    if g == [] then [] else MarkedReverse(g[1..]) + [g[0] + 128]
  }

  lemma {:induction false} MarkedGroups(q: nat)
    ensures MarkedReverse(Groups(q)) == Continued(q)
  {
    if q > 0 {
      MarkedGroups(q / 128);
      assert Groups(q)[1..] == Groups(q / 128);
    }
  }

  lemma GroupsStep(stack: seq<byte>, q: nat)
    requires q > 0
    ensures stack + Groups(q) == (stack + [q % 128]) + Groups(q / 128)
  {
  }

  /** `while p: stack.append(p & 0x7F); p >>= 7` */
  method CollectGroups(p: nat) returns (stack: seq<byte>)
    ensures stack == Groups(p)
  {
    stack := [];
    var q := p;
    while q > 0
      invariant stack + Groups(q) == Groups(p)
    {
      GroupsStep(stack, q);
      stack, q := stack + [q % 128], q / 128;
    }
  }

  /** The loop that emits the reversed stack, marking every group but the last. */
  method Emit(stack: seq<byte>) returns (out: seq<byte>)
    requires stack != [] && forall i :: 0 <= i < |stack| ==> stack[i] < 128
    ensures out == MarkedReverse(stack[1..]) + [stack[0]]
  {
    var n := |stack|;
    out := [];
    for i := 0 to n - 1
      invariant out == MarkedReverse(stack[n - i..])
    {
      assert stack[n - i - 1..] == [stack[n - 1 - i]] + stack[n - i..];
      out := out + [stack[n - 1 - i] + 0x80];
    }
    out := out + [stack[0]];
  }

  /** The body of `_oid`'s loop, for one arc. */
  method EncodeArc(p: nat) returns (r: seq<byte>)
    ensures r == Arc(p)
  {
    if p == 0 {
      return [0];
    }
    var stack := CollectGroups(p);
    MarkedGroups(p / 128);
    assert stack[1..] == Groups(p / 128);
    r := Emit(stack);
  }

  /** `_oid` */
  method EncodeOid(parts: seq<nat>) returns (body: seq<byte>)
    requires |parts| >= 2 && parts[0] * 40 + parts[1] < 256
    ensures body == OidBody(parts)
    ensures ReadArcs(body[1..], 0) == parts[2..]
  {
    body := [parts[0] * 40 + parts[1]];
    for i := 2 to |parts|
      invariant body == [parts[0] * 40 + parts[1]] + Arcs(parts[2..i])
    {
      var arc := EncodeArc(parts[i]);
      assert parts[2..i + 1][..i - 2] == parts[2..i];
      body := body + arc;
    }
    assert parts[2..|parts|] == parts[2..];
    assert body[1..] == Arcs(parts[2..]) == Arcs(parts[2..]) + [];
    ArcsRoundTrip(parts[2..], []);
  }
}
