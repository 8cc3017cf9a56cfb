/**
  What a chunked body means: the pure side of `_decode_chunked` and of the chunk writer in
  os_net/comp_networking/examples/http_client.py, against section 7.1 of RFC 9112.
*/
module Chunked {
  import opened Bytes
  import opened Sequences
  import opened Wrappers

  const CR: byte := 13
  const LF: byte := 10
  const CRLF: seq<byte> := [CR, LF]

  /** A decoded body; `ValueError` from `int(..., 16)`; `Negative` marks a size below zero, for which
      the decoder has no meaning of its own. */
  datatype Outcome = Body(bytes: seq<byte>) | ValueError | Negative

  // ---------- bytes.find, bytes.partition, bytes.split, bytes.strip ----------

  /** The first position of the marker, or -1. */
  function Find(b: seq<byte>, marker: seq<byte>): (i: int)
    ensures -1 <= i && (i >= 0 ==> i + |marker| <= |b|)
  {
    if |b| < |marker| then -1
    else if b[..|marker|] == marker then 0
    else if b == [] then -1
    else
      var i := Find(b[1..], marker);
      if i < 0 then -1 else i + 1
  }

  predicate At(b: seq<byte>, marker: seq<byte>, j: int) {
    0 <= j <= |b| - |marker| && b[j..j + |marker|] == marker
  }

  /** It stands there and nowhere before; or it stands nowhere. */
  lemma {:induction false} FindMeans(b: seq<byte>, marker: seq<byte>)
    ensures Find(b, marker) >= 0 ==> At(b, marker, Find(b, marker))
    ensures forall j :: At(b, marker, j) ==> 0 <= Find(b, marker) <= j
    decreases |b|
  {
    if 0 < |b| && |marker| <= |b| && b[..|marker|] != marker {
      FindMeans(b[1..], marker);
      forall j | 1 <= j
        ensures At(b, marker, j) <==> At(b[1..], marker, j - 1)
      {
        Shift(b, marker, j);
      }
    }
  }

  lemma Shift(b: seq<byte>, marker: seq<byte>, j: int)
    requires b != [] && 1 <= j
    ensures At(b, marker, j) <==> At(b[1..], marker, j - 1)
  {
    var n, t := |marker|, b[1..];
    if j <= |b| - n {
      var x, y := b[j..j + n], t[j - 1..j - 1 + n];
      forall i | 0 <= i < n
        ensures x[i] == y[i]
      {
        assert x[i] == b[j + i] == t[j - 1 + i];
      }
      assert x == y;
    }
  }

  /** A marker once found stays where it is however much arrives behind it. */
  lemma {:induction false} FindStable(b: seq<byte>, more: seq<byte>, marker: seq<byte>)
    requires Find(b, marker) >= 0
    ensures Find(b + more, marker) == Find(b, marker)
    decreases |b|
  {
    assert (b + more)[..|marker|] == b[..|marker|];
    if b[..|marker|] != marker {
      assert (b + more)[1..] == b[1..] + more;
      FindStable(b[1..], more, marker);
    }
  }

  /** And it was already there when it had just arrived. */
  lemma {:induction false} FindEarly(b: seq<byte>, marker: seq<byte>, n: nat)
    requires Find(b, marker) >= 0 && Find(b, marker) + |marker| <= n <= |b|
    ensures Find(b[..n], marker) == Find(b, marker)
    decreases |b|
  {
    assert b[..n][..|marker|] == b[..|marker|];
    if b[..|marker|] != marker {
      assert b[..n][1..] == b[1..][..n - 1];
      FindEarly(b[1..], marker, n - 1);
    }
  }

  function Before(b: seq<byte>, i: int): seq<byte> { if 0 <= i <= |b| then b[..i] else b }

  function After(b: seq<byte>, i: int, width: nat): seq<byte> {
    if 0 <= i <= |b| - width then b[i + width..] else []
  }

  /** `before, _, after = b.partition(marker)` */
  function Until(b: seq<byte>, marker: seq<byte>): seq<byte> { Before(b, Find(b, marker)) }

  function Beyond(b: seq<byte>, marker: seq<byte>): seq<byte> { After(b, Find(b, marker), |marker|) }

  function Line(b: seq<byte>): seq<byte> { Until(b, CRLF) }

  function Rest(b: seq<byte>): (r: seq<byte>)
    ensures |Line(b)| + |r| <= |b|
  {
    Beyond(b, CRLF)
  }

  function UpTo(b: seq<byte>, c: byte): seq<byte> {
    if b == [] || b[0] == c then [] else [b[0]] + UpTo(b[1..], c)
  }

  predicate Space(c: byte) { c == 32 || 9 <= c <= 13 }

  function LStrip(b: seq<byte>, space: byte -> bool): seq<byte> {
    if b != [] && space(b[0]) then LStrip(b[1..], space) else b
  }

  function RStrip(b: seq<byte>, space: byte -> bool): seq<byte> {
    if b != [] && space(b[|b| - 1]) then RStrip(b[..|b| - 1], space) else b
  }

  function Strip(b: seq<byte>, space: byte -> bool): seq<byte> { RStrip(LStrip(b, space), space) }

  lemma {:induction false} LStripPadding(left: seq<byte>, b: seq<byte>, space: byte -> bool)
    requires forall i :: 0 <= i < |left| ==> space(left[i])
    ensures LStrip(left + b, space) == LStrip(b, space)
  {
    var t := left + b;
    if left == [] {
      assert t == b;
    } else {
      assert t[0] == left[0] && t[1..] == left[1..] + b;
      LStripPadding(left[1..], b, space);
    }
  }

  lemma {:induction false} RStripPadding(b: seq<byte>, right: seq<byte>, space: byte -> bool)
    requires forall i :: 0 <= i < |right| ==> space(right[i])
    ensures RStrip(b + right, space) == RStrip(b, space)
  {
    var t, n := b + right, |right|;
    if n == 0 {
      assert t == b;
    } else {
      assert t[|t| - 1] == right[n - 1] && t[..|t| - 1] == b + right[..n - 1];
      RStripPadding(b, right[..n - 1], space);
    }
  }

  /** Stripping removes exactly the space around. */
  lemma Padded(left: seq<byte>, b: seq<byte>, right: seq<byte>, space: byte -> bool)
    requires b == [] || (!space(b[0]) && !space(b[|b| - 1]))
    requires forall i :: 0 <= i < |left| ==> space(left[i])
    requires forall i :: 0 <= i < |right| ==> space(right[i])
    ensures Strip(left + (b + right), space) == b
  {
    LStripPadding(left, b + right, space);
    if b == [] {
      LStripPadding(right, [], space);
      assert b + right == right + [];
    } else {
      assert (b + right)[0] == b[0];
      RStripPadding(b, right, space);
    }
  }

  lemma StripNothing(b: seq<byte>, space: byte -> bool)
    requires b == [] || (!space(b[0]) && !space(b[|b| - 1]))
    ensures Strip(b, space) == b
  {
  }

  // ---------- int(text, base) ----------

  function HexValue(c: byte): Option<nat> {
    if 48 <= c <= 57 then Some(c - 48)
    else if 65 <= c <= 70 then Some(c - 55)
    else if 97 <= c <= 102 then Some(c - 87)
    else None
  }

  function DigitIn(c: byte, base: nat): Option<nat> {
    if HexValue(c).Some? && HexValue(c).value < base then HexValue(c) else None
  }

  function Pushed(acc: nat, base: nat, c: byte): nat
    requires DigitIn(c, base).Some?
  {
    acc * base + DigitIn(c, base).value
  }

  /** Digits of the base, single underscores allowed between them. */
  function Digits(s: seq<byte>, base: nat, acc: nat, afterDigit: bool): Option<nat> {
    if s == [] then (if afterDigit then Some(acc) else None)
    else if s[0] == 95 then (if afterDigit then Digits(s[1..], base, acc, false) else None)
    else if DigitIn(s[0], base).Some? then Digits(s[1..], base, Pushed(acc, base, s[0]), true)
    else None
  }

  /** After the sign: for base 16 an optional 0x, which an underscore may follow. */
  function Magnitude(s: seq<byte>, base: nat): Option<nat> {
    if base == 16 && |s| >= 2 && s[0] == 48 && (s[1] == 120 || s[1] == 88) then
      Digits(if |s| >= 3 && s[2] == 95 then s[3..] else s[2..], base, 0, false)
    else Digits(s, base, 0, false)
  }

  function Negated(n: Option<nat>): Option<int> {
    if n.None? then None else var v: int := n.value; Some(-v)
  }

  function Positive(n: Option<nat>): Option<int> { if n.Some? then Some(n.value) else None }

  function Int(s: seq<byte>, base: nat): Option<int> {
    if s != [] && s[0] == 45 then Negated(Magnitude(s[1..], base))
    else Positive(Magnitude(if s != [] && s[0] == 43 then s[1..] else s, base))
  }

  /** `int(line.split(b";")[0].strip() or b"0", 16)` */
  function Size(line: seq<byte>): (n: Option<int>)
    ensures line == [] ==> n == Some(0)
  {
    var field := Strip(UpTo(line, 59), Space);
    if field == [] then Some(0) else Int(field, 16)
  }

  // ---------- the meaning of a whole stream ----------

  function Then(data: seq<byte>, r: Outcome): Outcome {
    if r.Body? then Body(data + r.bytes) else r
  }

  /** Chunk after chunk until a zero size; a stream that ends early yields what it had. */
  function Decode(s: seq<byte>): Outcome
    decreases |s|
  {
    var size := Size(Line(s));
    if size.None? then ValueError
    else if size.value == 0 then Body([])
    else if size.value < 0 then Negative
    else Then(Take(Rest(s), size.value), Decode(Drop(Rest(s), size.value + 2)))
  }

  /** A stream up to its first negative size: the data before it, the size, and the bytes after its line. */
  datatype Scan = AllGood | Stops(data: seq<byte>, size: int, rest: seq<byte>)

  function Prefixed(data: seq<byte>, scan: Scan): Scan {
    if scan.Stops? then scan.(data := data + scan.data) else AllGood
  }

  function Scanned(s: seq<byte>): (scan: Scan)
    ensures scan.Stops? ==> scan.size < 0
    decreases |s|
  {
    var size := Size(Line(s));
    if size.None? || size.value == 0 then AllGood
    else if size.value < 0 then Stops([], size.value, Rest(s))
    else Prefixed(Take(Rest(s), size.value), Scanned(Drop(Rest(s), size.value + 2)))
  }

  /** The scan stops exactly where decoding has no meaning. */
  lemma {:induction false} NegativeIffStops(s: seq<byte>)
    ensures Decode(s).Negative? <==> Scanned(s).Stops?
    decreases |s|
  {
    var size := Size(Line(s));
    if size.Some? && size.value > 0 { NegativeIffStops(Drop(Rest(s), size.value + 2)); }
  }

  // ---------- the writer ----------

  function HexDigit(d: nat): byte
    requires d < 16
  {
    if d < 10 then 48 + d else 55 + d
  }

  /** `b"%X" % n` */
  function Hex(n: nat): (h: seq<byte>)
    ensures h != []
  {
    if n < 16 then [HexDigit(n)] else Hex(n / 16) + [HexDigit(n % 16)]
  }

  /** `b"%X\r\n%s\r\n" % (len(piece), piece)` */
  function Chunk(piece: seq<byte>): seq<byte> {
    Hex(|piece|) + (CRLF + (piece + CRLF))
  }

  function Write(pieces: seq<seq<byte>>): seq<byte> {
    if pieces == [] then [48] + (CRLF + CRLF) else Chunk(pieces[0]) + Write(pieces[1..])
  }

  /** The pieces joined, up to the first empty one (which reads as the last chunk). */
  function Joined(pieces: seq<seq<byte>>): seq<byte> {
    if pieces == [] || pieces[0] == [] then [] else pieces[0] + Joined(pieces[1..])
  }

  /** A hex digit as written: no carriage return, no separator, no space, no underscore. */
  predicate Clean(b: seq<byte>) { forall i :: 0 <= i < |b| ==> (48 <= b[i] <= 57 || 65 <= b[i] <= 70) }

  lemma {:induction false} HexClean(n: nat)
    ensures Clean(Hex(n))
  {
    if n >= 16 { HexClean(n / 16); }
  }

  /** A marker that begins with a carriage return, behind bytes without one. */
  lemma {:induction false} FindMarked(a: seq<byte>, marker: seq<byte>, s: seq<byte>)
    requires CR !in a && marker != [] && marker[0] == CR
    ensures Find(a + (marker + s), marker) == |a|
  {
    var t := a + (marker + s);
    if a == [] {
      assert t[..|marker|] == marker;
    } else {
      assert t[..|marker|][0] == a[0];
      assert t[1..] == a[1..] + (marker + s);
      FindMarked(a[1..], marker, s);
    }
  }

  lemma {:induction false} DigitsSnoc(a: seq<byte>, base: nat, acc: nat, after: bool, c: byte, v: nat)
    requires c != 95 && DigitIn(c, base).Some? && Digits(a, base, acc, after) == Some(v)
    ensures Digits(a + [c], base, acc, after) == Some(Pushed(v, base, c))
  {
    var t := a + [c];
    if a == [] {
      assert t[1..] == [];
    } else {
      assert t[1..] == a[1..] + [c];
      if a[0] == 95 {
        DigitsSnoc(a[1..], base, acc, false, c, v);
      } else {
        DigitsSnoc(a[1..], base, Pushed(acc, base, a[0]), true, c, v);
      }
    }
  }

  // ---------- what a size line says ----------

  predicate IsHex(c: byte) { 48 <= c <= 57 || 65 <= c <= 70 || 97 <= c <= 102 }

  /** A hexadecimal digit's worth, in either case. */
  function Worth(c: byte): nat
    requires IsHex(c)
  {
    if c <= 57 then c - 48 else if c <= 70 then c - 55 else c - 87
  }

  function HexNumber(d: seq<byte>): nat
    requires forall i :: 0 <= i < |d| ==> IsHex(d[i])
  {
    if d == [] then 0 else HexNumber(d[..|d| - 1]) * 16 + Worth(d[|d| - 1])
  }

  lemma {:induction false} DigitsOfAny(d: seq<byte>)
    requires d != [] && forall i :: 0 <= i < |d| ==> IsHex(d[i])
    ensures Digits(d, 16, 0, false) == Some(HexNumber(d))
  {
    var front, c := d[..|d| - 1], d[|d| - 1];
    assert d == front + [c];
    if front == [] {
      assert d == [c] && [c][1..] == [];
    } else {
      DigitsOfAny(front);
      DigitsSnoc(front, 16, 0, false, c, HexNumber(front));
    }
  }

  lemma {:induction false} UpToAbsent(a: seq<byte>, c: byte)
    requires c !in a
    ensures UpTo(a, c) == a
  {
    if a != [] { UpToAbsent(a[1..], c); }
  }

  lemma {:induction false} UpToFirst(a: seq<byte>, c: byte, b: seq<byte>)
    requires c !in a
    ensures UpTo(a + ([c] + b), c) == a
  {
    var t := a + ([c] + b);
    if a != [] {
      assert t[1..] == a[1..] + ([c] + b);
      UpToFirst(a[1..], c, b);
    }
  }

  lemma IntOfDigits(d: seq<byte>)
    requires d != [] && forall i :: 0 <= i < |d| ==> IsHex(d[i])
    ensures Int(d, 16) == Some(HexNumber(d))
  {
    MagnitudeOfDigits(d);
  }

  /** White space. */
  predicate Whitespace(b: seq<byte>) { forall i :: 0 <= i < |b| ==> b[i] == 32 || 9 <= b[i] <= 13 }

  lemma SizeOfStripped(line: seq<byte>, left: seq<byte>, d: seq<byte>, right: seq<byte>)
    requires d != [] && (forall i :: 0 <= i < |d| ==> IsHex(d[i])) && Whitespace(left) && Whitespace(right)
    requires UpTo(line, 59) == left + (d + right)
    ensures Size(line) == Int(d, 16)
  {
    assert IsHex(d[0]) && IsHex(d[|d| - 1]);
    Padded(left, d, right, Space);
  }

  lemma NoSemicolon(left: seq<byte>, d: seq<byte>, right: seq<byte>)
    requires (forall i :: 0 <= i < |d| ==> IsHex(d[i])) && Whitespace(left) && Whitespace(right)
    ensures 59 !in left + (d + right)
  {
  }

  /** White space around the digits does not matter, and with no digits it means zero. */
  lemma SizeOfPadded(left: seq<byte>, d: seq<byte>, right: seq<byte>, ext: seq<byte>)
    requires (forall i :: 0 <= i < |d| ==> IsHex(d[i])) && Whitespace(left) && Whitespace(right)
    ensures var line := left + (d + right); Size(line) == Size(line + ([59] + ext)) == Some(HexNumber(d))
  {
    var line := left + (d + right);
    NoSemicolon(left, d, right);
    UpToAbsent(line, 59);
    UpToFirst(line, 59, ext);
    if d == [] {
      Padded(left, d, right, Space);
    } else {
      SizeOfStripped(line, left, d, right);
      SizeOfStripped(line + ([59] + ext), left, d, right);
      IntOfDigits(d);
    }
  }

  /** A size line of hexadecimal digits in either case means their number, with or without an extension
      behind a semicolon. */
  lemma SizeOfDigits(d: seq<byte>, ext: seq<byte>)
    requires d != [] && forall i :: 0 <= i < |d| ==> IsHex(d[i])
    ensures Size(d) == Some(HexNumber(d)) && Size(d + ([59] + ext)) == Some(HexNumber(d))
  {
    SizeOfPadded([], d, [], ext);
    assert [] + (d + []) == d;
  }

  lemma {:induction false} HexIsNumber(n: nat)
    ensures (forall i :: 0 <= i < |Hex(n)| ==> IsHex(Hex(n)[i])) && HexNumber(Hex(n)) == n
  {
    if n < 16 {
      assert [HexDigit(n)][..0] == [];
    } else {
      HexIsNumber(n / 16);
      assert Hex(n)[..|Hex(n)| - 1] == Hex(n / 16);
    }
  }

  /** Reading a size undoes writing it. */
  lemma SizeOfHex(n: nat)
    ensures Size(Hex(n)) == Some(n)
  {
    HexIsNumber(n);
    SizeOfDigits(Hex(n), []);
  }

  lemma MagnitudeOfDigits(d: seq<byte>)
    requires d != [] && forall i :: 0 <= i < |d| ==> IsHex(d[i])
    ensures Magnitude(d, 16) == Some(HexNumber(d))
  {
    DigitsOfAny(d);
    assert |d| >= 2 ==> IsHex(d[1]);
  }

  /** Behind a sign. */
  lemma IntOfSigned(d: seq<byte>)
    requires d != [] && forall i :: 0 <= i < |d| ==> IsHex(d[i])
    ensures Int([45] + d, 16) == Some(0 - HexNumber(d)) && Int([43] + d, 16) == Some(HexNumber(d))
  {
    MagnitudeOfDigits(d);
    assert ([45] + d)[1..] == d && ([43] + d)[1..] == d;
  }

  /** Behind 0x or 0X. */
  lemma MagnitudeOfPrefixed(d: seq<byte>, x: byte)
    requires d != [] && (forall i :: 0 <= i < |d| ==> IsHex(d[i])) && (x == 120 || x == 88)
    ensures Magnitude([48, x] + d, 16) == Some(HexNumber(d))
  {
    DigitsOfAny(d);
    Prefixed16(d, x);
  }

  lemma Prefixed16(d: seq<byte>, x: byte)
    requires d != [] && IsHex(d[0]) && (x == 120 || x == 88)
    ensures Magnitude([48, x] + d, 16) == Digits(d, 16, 0, false)
  {
    var t := [48, x] + d;
    assert t[2..] == d && t[2] == d[0];
  }

  /** Digits of the base with single underscores between them. */
  predicate Spelt(s: seq<byte>, base: nat, after: bool) {
    && (s == [] ==> after)
    && (s != [] ==> s[|s| - 1] != 95 && (s[0] == 95 ==> after))
    && (forall i :: 0 <= i < |s| ==> s[i] == 95 || DigitIn(s[i], base).Some?)
    && (forall i :: 0 <= i < |s| - 1 ==> !(s[i] == 95 && s[i + 1] == 95))
  }

  /** Anything else in a numeral makes it invalid. */
  lemma {:induction false} DigitsIff(s: seq<byte>, base: nat, acc: nat, after: bool)
    ensures Digits(s, base, acc, after).Some? <==> Spelt(s, base, after)
  {
    if s != [] {
      var t := s[1..];
      if s[0] == 95 {
        DigitsIff(t, base, acc, false);
        SpeltTail(s, base, after, false);
      } else if DigitIn(s[0], base).Some? {
        DigitsIff(t, base, Pushed(acc, base, s[0]), true);
        SpeltTail(s, base, after, true);
      }
    }
  }

  lemma SpeltTail(s: seq<byte>, base: nat, after: bool, next: bool)
    requires s != [] && (s[0] == 95 <==> !next) && (s[0] == 95 || DigitIn(s[0], base).Some?)
    ensures Spelt(s, base, after) <==> (s[0] == 95 ==> after) && Spelt(s[1..], base, next)
  {
    var t := s[1..];
    if Spelt(t, base, next) && (s[0] == 95 ==> after) {
      forall i | 0 <= i < |s|
        ensures s[i] == 95 || DigitIn(s[i], base).Some?
      {
        if i > 0 { assert t[i - 1] == s[i]; }
      }
      forall i | 0 <= i < |s| - 1
        ensures !(s[i] == 95 && s[i + 1] == 95)
      {
        if i > 0 { assert t[i - 1] == s[i] && t[i] == s[i + 1]; } else { assert t[0] == s[1]; }
      }
    }
    if Spelt(s, base, after) {
      assert forall i :: 0 <= i < |t| ==> t[i] == s[i + 1];
      forall i | 0 <= i < |t| - 1
        ensures !(t[i] == 95 && t[i + 1] == 95)
      {
        assert !(s[i + 1] == 95 && s[i + 2] == 95);
      }
    }
  }

  lemma LineOf(a: seq<byte>, rest: seq<byte>)
    requires CR !in a
    ensures Find(a + (CRLF + rest), CRLF) >= 0 && Line(a + (CRLF + rest)) == a && Rest(a + (CRLF + rest)) == rest
  {
    FindMarked(a, CRLF, rest);
    var t := a + (CRLF + rest);
    assert t[..|a|] == a && t[|a| + 2..] == rest;
  }

  lemma LineOfHex(n: nat, s: seq<byte>)
    ensures Line(Hex(n) + (CRLF + s)) == Hex(n) && Rest(Hex(n) + (CRLF + s)) == s
  {
    HexClean(n);
    LineOf(Hex(n), s);
  }

  lemma DecodeChunk(piece: seq<byte>, s: seq<byte>)
    requires piece != []
    ensures Decode(Chunk(piece) + s) == Then(piece, Decode(s))
  {
    var n := |piece|;
    var tail := piece + CRLF + s;
    assert Chunk(piece) + s == Hex(n) + (CRLF + tail);
    LineOfHex(n, tail);
    SizeOfHex(n);
    assert Take(tail, n) == piece && Drop(tail, n + 2) == s;
  }

  lemma DecodeEnd(s: seq<byte>)
    ensures Decode(Hex(0) + (CRLF + s)) == Body([])
  {
    LineOfHex(0, s);
    SizeOfHex(0);
  }

  lemma Reassociate(a: seq<byte>, b: seq<byte>, c: seq<byte>, d: seq<byte>)
    ensures (a + (b + c)) + d == a + (b + (c + d))
  {
  }

  lemma EmptyChunk(rest: seq<byte>, s: seq<byte>)
    ensures (Chunk([]) + rest) + s == Hex(0) + (CRLF + (CRLF + (rest + s)))
  {
    assert [] + CRLF == CRLF;
    Reassociate(Hex(0), CRLF, CRLF, rest);
    Reassociate(Hex(0), CRLF, CRLF + rest, s);
  }

  /** Decoding undoes writing, for any pieces at all, those containing CRLF included, and whatever
      follows the last chunk. */
  lemma {:induction false} DecodeUndoesWrite(pieces: seq<seq<byte>>, s: seq<byte>)
    ensures Decode(Write(pieces) + s) == Body(Joined(pieces))
  {
    if pieces == [] {
      Reassociate([48], CRLF, CRLF, s);
      DecodeEnd(CRLF + s);
    } else if pieces[0] == [] {
      var rest := Write(pieces[1..]);
      EmptyChunk(rest, s);
      DecodeEnd(CRLF + (rest + s));
    } else {
      assert Write(pieces) + s == Chunk(pieces[0]) + (Write(pieces[1..]) + s);
      DecodeChunk(pieces[0], Write(pieces[1..]) + s);
      DecodeUndoesWrite(pieces[1..], s);
    }
  }

  // ---------- any chunked body ----------

  /** One chunk as RFC 9112 allows it: a size in hexadecimal digits of either case, perhaps with leading
      zeros, an extension behind a semicolon or none, and the data. */
  datatype Part = Part(digits: seq<byte>, ext: seq<byte>, data: seq<byte>) {
    predicate Proper() {
      && digits != [] && (forall i :: 0 <= i < |digits| ==> IsHex(digits[i])) && HexNumber(digits) == |data|
      && 13 !in ext && (ext != [] ==> ext[0] == 59)
    }
    function Text(): seq<byte> { digits + ext + [13, 10] + data + [13, 10] }
  }

  function PartsText(parts: seq<Part>): seq<byte> {
    if parts == [] then [] else parts[0].Text() + PartsText(parts[1..])
  }

  function DataOf(parts: seq<Part>): seq<byte> {
    if parts == [] then [] else parts[0].data + DataOf(parts[1..])
  }

  lemma SizeOfPart(p: Part)
    requires p.Proper()
    ensures Size(p.digits + p.ext) == Some(|p.data|) && CR !in p.digits + p.ext
  {
    SizeOfDigits(p.digits, if p.ext == [] then [] else p.ext[1..]);
    assert p.digits + p.ext == if p.ext == [] then p.digits else p.digits + ([59] + p.ext[1..]);
    assert forall c :: c in p.digits + p.ext <==> c in p.digits || c in p.ext;
  }

  lemma DecodePart(p: Part, s: seq<byte>)
    requires p.Proper()
    ensures Decode(p.Text() + s) == if p.data == [] then Body([]) else Then(p.data, Decode(s))
  {
    var tail := p.data + CRLF + s;
    assert p.Text() + s == (p.digits + p.ext) + (CRLF + tail);
    SizeOfPart(p);
    LineOf(p.digits + p.ext, tail);
    assert Take(tail, |p.data|) == p.data && Drop(tail, |p.data| + 2) == s;
  }

  lemma {:induction false} DecodeAhead(parts: seq<Part>, end: seq<byte>)
    requires forall i :: 0 <= i < |parts| ==> parts[i].Proper() && parts[i].data != []
    requires Decode(end) == Body([])
    ensures Decode(PartsText(parts) + end) == Body(DataOf(parts))
  {
    if parts == [] {
      assert PartsText(parts) + end == end;
    } else {
      DecodePart(parts[0], PartsText(parts[1..]) + end);
      DecodeAhead(parts[1..], end);
      Associate(parts[0].Text(), PartsText(parts[1..]), end);
    }
  }

  lemma Associate(a: seq<byte>, b: seq<byte>, c: seq<byte>)
    ensures (a + b) + c == a + (b + c)
  {
  }

  lemma DecodeLast(last: Part, s: seq<byte>)
    requires last.Proper() && last.data == []
    ensures Decode(last.digits + last.ext + [13, 10] + s) == Body([])
  {
    SizeOfPart(last);
    LineOf(last.digits + last.ext, s);
    assert last.digits + last.ext + [13, 10] + s == (last.digits + last.ext) + (CRLF + s);
  }

  /** Every chunked body decodes to its data, whatever stands behind the last chunk's size. */
  lemma DecodeParts(parts: seq<Part>, last: Part, s: seq<byte>)
    requires forall i :: 0 <= i < |parts| ==> parts[i].Proper() && parts[i].data != []
    requires last.Proper() && last.data == []
    ensures Decode(PartsText(parts) + (last.digits + last.ext + [13, 10] + s)) == Body(DataOf(parts))
  {
    DecodeLast(last, s);
    DecodeAhead(parts, last.digits + last.ext + [13, 10] + s);
  }

  lemma ChunkIsPart(piece: seq<byte>) returns (p: Part)
    ensures p.Proper() && p.data == piece && p.Text() == Chunk(piece)
  {
    HexIsNumber(|piece|);
    p := Part(Hex(|piece|), [], piece);
  }

  /** The writer's output is such a body, chunk for piece. */
  lemma {:induction false} WriteIsParts(pieces: seq<seq<byte>>) returns (parts: seq<Part>)
    ensures |parts| == |pieces| && forall i :: 0 <= i < |parts| ==> parts[i].Proper() && parts[i].data == pieces[i]
    ensures Write(pieces) == PartsText(parts) + [48, 13, 10, 13, 10]
  {
    if pieces == [] {
      parts := [];
    } else {
      var rest := WriteIsParts(pieces[1..]);
      var p := ChunkIsPart(pieces[0]);
      parts := [p] + rest;
      assert parts[1..] == rest;
      Associate(p.Text(), PartsText(rest), [48, 13, 10, 13, 10]);
    }
  }
}
