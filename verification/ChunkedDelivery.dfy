/**
  When the way bytes are delivered matters to `_decode_chunked` in
  os_net/comp_networking/examples/http_client.py: it does not reject a negative chunk size, and slices
  with negative bounds then depend on how much happens to be buffered.
*/
module ChunkedDelivery {
  import opened Bytes
  import opened Chunked
  import opened HttpClient
  import opened Sequences
  import opened Wrappers

  ghost predicate Delivers(f: Feed, s: seq<byte>) { Deliverable(f.fragments) && f.All() == s }

  ghost predicate DeliveryMatters(s: seq<byte>) {
    exists f: Feed, g: Feed :: Delivers(f, s) && Delivers(g, s) && Loop(f) != Loop(g)
  }

  /** What is read on with when b of the bytes behind a negative size were buffered. */
  function Remaining(r: seq<byte>, size: int, b: nat): seq<byte>
    requires b <= |r|
  {
    SliceFrom(r[..b], size + 2) + r[b..]
  }

  /** And the result it leads to. */
  function Stopped(r: seq<byte>, size: int, b: nat): Outcome
    requires b <= |r|
  {
    Then(SliceTo(r[..b], size), Decode(Remaining(r, size, b)))
  }

  /** How much can be buffered: for -1 the decoder waits for a byte. */
  predicate Buffered(r: seq<byte>, size: int, b: nat) { b <= |r| && (size == -1 ==> b >= 1 || r == []) }

  /** Closed forms: of b buffered bytes all but the last k are taken for data. Reading resumes one byte
      into the buffer for k = 1, at its start for k = 2, and k - 2 bytes before its end beyond. */
  lemma StoppedIs(r: seq<byte>, k: int, b: nat)
    requires k >= 1 && Buffered(r, -k, b)
    ensures SliceTo(r[..b], -k) == r[..if b < k then 0 else b - k]
    ensures k == 1 ==> Remaining(r, -k, b) == Drop(r, 1)
    ensures k == 2 ==> Remaining(r, -k, b) == r
    ensures k >= 3 ==> Remaining(r, -k, b) == r[if b < k - 2 then 0 else b - (k - 2)..]
  {
    if k == 1 && r != [] {
      assert r[..b][1..] + r[b..] == r[1..];
    }
    if k == 2 {
      assert r[..b][0..] + r[b..] == r;
    }
    if k >= 3 {
      var i := if b < k - 2 then 0 else b - (k - 2);
      assert r[..b][i..] + r[b..] == r[i..];
    }
  }

  lemma NegativeCut(k: Feed, size: int) returns (b: nat)
    requires size < 0
    ensures Buffered(k.All(), size, b)
    ensures Cut(k, size).data == SliceTo(k.All()[..b], size)
    ensures Cut(k, size).next.All() == Remaining(k.All(), size, b)
  {
    FilledTo(k, size + 2);
    var h := FillTo(k, size + 2);
    b := |h.buf|;
    assert h.All()[..b] == h.buf && h.All()[b..] == Flatten(h.fragments);
    if h.fragments == [] { NothingMore(h.buf); }
  }

  /** A size above zero, at the start of the stream. */
  predicate PositiveFirst(s: seq<byte>) { Size(Line(s)).Some? && Size(Line(s)).value > 0 }

  lemma SizedScans(g: Feed)
    requires Filled(g, CRLF) && PositiveFirst(g.All())
    ensures Sized(g).Data? && Scanned(g.All()) == Prefixed(Sized(g).data, Scanned(Sized(g).next.All()))
  {
    SplitAgrees(g, CRLF);
    ChunkAgrees(Feed(Rest(g.buf), g.fragments), Size(Line(g.buf)).value);
  }

  /** One turn towards the first negative size. */
  lemma TurnScans(f: Feed)
    requires PositiveFirst(f.All())
    ensures Turned(f).Data? && Scanned(f.All()) == Prefixed(Turned(f).data, Scanned(Turned(f).next.All()))
  {
    FilledUntil(f, CRLF);
    SizedScans(FillUntil(f, CRLF));
  }

  /** The turn at the negative size itself. */
  lemma TurnStops(f: Feed) returns (k: Feed)
    requires Size(Line(f.All())).Some? && Size(Line(f.All())).value < 0
    ensures k.All() == Rest(f.All()) && Turned(f) == Cut(k, Size(Line(f.All())).value)
  {
    FilledUntil(f, CRLF);
    var g := FillUntil(f, CRLF);
    SplitAgrees(g, CRLF);
    k := Feed(Rest(g.buf), g.fragments);
  }

  /** Where a delivery stands when it meets the first negative size. */
  lemma {:induction false} Meets(f: Feed) returns (k: Feed)
    requires Scanned(f.All()).Stops?
    ensures k.All() == Scanned(f.All()).rest
    ensures var t := Cut(k, Scanned(f.All()).size); Loop(f) == Then(Scanned(f.All()).data, Then(t.data, Loop(t.next)))
    decreases |f.All()|
  {
    if Size(Line(f.All())).value < 0 {
      k := TurnStops(f);
      ThenNone(Loop(f));
    } else {
      TurnScans(f);
      var t := Turned(f);
      k := Meets(t.next);
      var inner := Scanned(t.next.All());
      var u := Cut(k, inner.size);
      ThenTwice(t.data, inner.data, Then(u.data, Loop(u.next)));
    }
  }

  /** Every delivery ends in one of these results. */
  lemma EveryDelivery(f: Feed) returns (b: nat)
    requires Scanned(f.All()).Stops?
    requires LastNegative(Scanned(f.All()).rest, Scanned(f.All()).size)
    ensures var scan := Scanned(f.All());
            Buffered(scan.rest, scan.size, b) && Loop(f) == Then(scan.data, Stopped(scan.rest, scan.size, b))
  {
    var scan := Scanned(f.All());
    var k := Meets(f);
    b := NegativeCut(k, scan.size);
    LoopIsDecode(Cut(k, scan.size).next);
  }

  function Singles(s: seq<byte>): Fragments { seq(|s|, i requires 0 <= i < |s| => [s[i]]) }

  lemma {:induction false} FlattenSingles(s: seq<byte>)
    ensures Flatten(Singles(s)) == s
  {
    if s != [] {
      assert Singles(s)[1..] == Singles(s[1..]);
      FlattenSingles(s[1..]);
    }
  }

  predicate Ends(s: seq<byte>, t: seq<byte>) { |t| <= |s| && s[|s| - |t|..] == t }

  lemma EndsTwice(s: seq<byte>, t: seq<byte>, u: seq<byte>)
    requires Ends(s, t) && Ends(t, u)
    ensures Ends(s, u)
  {
    assert s[|s| - |u|..] == t[|t| - |u|..];
  }

  lemma DropEnds(s: seq<byte>, r: seq<byte>, n: nat)
    requires Ends(s, r)
    ensures Ends(s, Drop(r, n))
  {
    EndsTwice(s, r, Drop(r, n));
  }

  lemma RestEnds(s: seq<byte>)
    ensures Ends(s, Rest(s))
  {
  }

  /** The stream behind a first chunk. */
  function Behind(s: seq<byte>): seq<byte>
    requires PositiveFirst(s)
  {
    Drop(Rest(s), Size(Line(s)).value + 2)
  }

  lemma BehindScans(s: seq<byte>)
    requires PositiveFirst(s) && Scanned(s).Stops?
    ensures Scanned(Behind(s)).Stops? && Scanned(s).rest == Scanned(Behind(s)).rest && |Behind(s)| < |s|
  {
  }

  lemma BehindEnds(s: seq<byte>)
    requires PositiveFirst(s)
    ensures Ends(s, Behind(s))
  {
    RestEnds(s);
    DropEnds(s, Rest(s), Size(Line(s)).value + 2);
  }

  lemma {:induction false} RestIsSuffix(s: seq<byte>)
    requires Scanned(s).Stops?
    ensures Ends(s, Scanned(s).rest)
    decreases |s|
  {
    if PositiveFirst(s) {
      BehindScans(s);
      BehindEnds(s);
      RestIsSuffix(Behind(s));
      EndsTwice(s, Behind(s), Scanned(s).rest);
    } else {
      RestEnds(s);
    }
  }

  /** How many bytes precede the first negative size's rest. */
  function HeadLength(s: seq<byte>): int
    requires Scanned(s).Stops?
  {
    |s| - |Scanned(s).rest|
  }

  /** With everything up to the first negative size buffered, and b bytes behind it. */
  predicate Held(f: Feed, b: nat)
    requires Scanned(f.All()).Stops?
  {
    Deliverable(f.fragments) && |f.buf| == HeadLength(f.All()) + b
  }

  lemma FirstFits(f: Fragments)
    requires f != []
    ensures |f[0]| <= |Flatten(f)|
  {
  }

  lemma {:induction false} NothingLeft(f: Fragments)
    requires Deliverable(f) && Flatten(f) == []
    ensures f == []
  {
    if f != [] { FirstFits(f); }
  }

  /** With a line end in the buffer the turn receives nothing for its size line. */
  lemma LineHeld(f: Feed)
    requires Find(f.All(), CRLF) >= 0 && Find(f.All(), CRLF) + 2 <= |f.buf|
    ensures FillUntil(f, CRLF) == f && Line(f.buf) == Line(f.All())
    ensures Rest(f.buf) + Flatten(f.fragments) == Rest(f.All())
  {
    FindEarly(f.All(), CRLF, |f.buf|);
    assert f.All()[..|f.buf|] == f.buf;
    SplitAgrees(f, CRLF);
  }

  /** A chunk that is all in the buffer is taken from the buffer. */
  lemma ChunkHeld(f: Feed, b: nat)
    requires PositiveFirst(f.All()) && Scanned(f.All()).Stops? && Held(f, b)
    ensures Turned(f).Data? && Scanned(Turned(f).next.All()).Stops? && Held(Turned(f).next, b)
    ensures Turned(f).next.fragments == f.fragments
  {
    var s := f.All();
    var n, r := Size(Line(s)).value, Rest(s);
    RestIsSuffix(Drop(r, n + 2));
    LineHeld(f);
    TurnScans(f);
  }

  /** At the negative size itself. */
  lemma StopHeld(f: Feed, b: nat)
    requires Size(Line(f.All())).Some? && Size(Line(f.All())).value < 0 && Held(f, b)
    ensures b <= |Rest(f.All())|
    ensures Turned(f) == Cut(Feed(Rest(f.All())[..b], f.fragments), Size(Line(f.All())).value)
  {
    var s := f.All();
    if Find(s, CRLF) >= 0 {
      LineHeld(f);
      assert Rest(f.buf) == Rest(s)[..b];
    } else {
      NothingLeft(f.fragments);
      NothingMore(f.buf);
    }
  }

  lemma {:induction false} MeetsHeld(f: Feed, b: nat)
    requires Scanned(f.All()).Stops? && Held(f, b)
    ensures b <= |Scanned(f.All()).rest|
    ensures var scan := Scanned(f.All()); var t := Cut(Feed(scan.rest[..b], f.fragments), scan.size);
            Loop(f) == Then(scan.data, Then(t.data, Loop(t.next)))
    decreases |f.All()|
  {
    if PositiveFirst(f.All()) {
      ChunkHeld(f, b);
      TurnScans(f);
      var t := Turned(f);
      MeetsHeld(t.next, b);
      var inner := Scanned(t.next.All());
      var u := Cut(Feed(inner.rest[..b], f.fragments), inner.size);
      ThenTwice(t.data, inner.data, Then(u.data, Loop(u.next)));
    } else {
      StopHeld(f, b);
      ThenNone(Loop(f));
    }
  }

  /** The delivery that has b bytes behind the first negative size buffered, the others to come one by one. */
  function Holding(s: seq<byte>, b: nat): Feed
    requires Scanned(s).Stops? && b <= |Scanned(s).rest| <= |s|
  {
    Feed(s[..HeadLength(s) + b], Singles(Scanned(s).rest[b..]))
  }

  lemma HoldingDelivers(s: seq<byte>, b: nat)
    requires Scanned(s).Stops? && b <= |Scanned(s).rest| <= |s|
    ensures Delivers(Holding(s, b), s)
  {
    var r := Scanned(s).rest;
    RestIsSuffix(s);
    FlattenSingles(r[b..]);
    EndSplit(s, r, b);
  }

  lemma EndSplit(s: seq<byte>, r: seq<byte>, b: nat)
    requires Ends(s, r) && b <= |r|
    ensures s[..|s| - |r| + b] + r[b..] == s
  {
    assert r[b..] == s[|s| - |r| + b..];
  }

  /** Nothing is received for the chunk itself when enough is buffered. */
  lemma CutHeld(r: seq<byte>, size: int, b: nat, fragments: Fragments)
    requires size < 0 && Buffered(r, size, b) && Flatten(fragments) == r[b..] && (r == [] ==> fragments == [])
    ensures Cut(Feed(r[..b], fragments), size).data == SliceTo(r[..b], size)
    ensures Cut(Feed(r[..b], fragments), size).next.All() == Remaining(r, size, b)
  {
  }

  /** Every buffered length is some delivery's. */
  lemma SomeDelivery(s: seq<byte>, b: nat)
    requires Scanned(s).Stops? && Buffered(Scanned(s).rest, Scanned(s).size, b) && |Scanned(s).rest| <= |s|
    requires !Decode(Remaining(Scanned(s).rest, Scanned(s).size, b)).Negative?
    ensures Delivers(Holding(s, b), s)
    ensures Loop(Holding(s, b)) == Then(Scanned(s).data, Stopped(Scanned(s).rest, Scanned(s).size, b))
  {
    var scan, f := Scanned(s), Holding(s, b);
    HoldingDelivers(s, b);
    MeetsHeld(f, b);
    FlattenSingles(scan.rest[b..]);
    CutHeld(scan.rest, scan.size, b, f.fragments);
    LoopIsDecode(Cut(Feed(scan.rest[..b], f.fragments), scan.size).next);
  }

  lemma ThenInjective(data: seq<byte>, x: Outcome, y: Outcome)
    ensures Then(data, x) == Then(data, y) <==> x == y
  {
    if x.Body? && y.Body? && Then(data, x) == Then(data, y) {
      assert x.bytes == (data + x.bytes)[|data|..] && y.bytes == (data + y.bytes)[|data|..];
    }
  }

  /** However much was buffered, no further negative size follows. */
  ghost predicate LastNegative(r: seq<byte>, size: int) {
    forall b: nat :: Buffered(r, size, b) ==> !Decode(Remaining(r, size, b)).Negative?
  }

  /** Two buffered lengths lead to different results. */
  ghost predicate LengthsDiffer(r: seq<byte>, size: int) {
    exists b: nat, c: nat :: Buffered(r, size, b) && Buffered(r, size, c) && Stopped(r, size, b) != Stopped(r, size, c)
  }

  /** After any chunks, a negative size however spelled: delivery matters exactly when two lengths that
      may have been buffered at that moment differ in what follows from them. */
  lemma NegativeMatters(s: seq<byte>)
    requires Scanned(s).Stops? && LastNegative(Scanned(s).rest, Scanned(s).size)
    ensures DeliveryMatters(s) <==> LengthsDiffer(Scanned(s).rest, Scanned(s).size)
  {
    var scan := Scanned(s);
    var r, size := scan.rest, scan.size;
    RestIsSuffix(s);
    if LengthsDiffer(r, size) {
      var b: nat, c: nat :| Buffered(r, size, b) && Buffered(r, size, c) && Stopped(r, size, b) != Stopped(r, size, c);
      SomeDelivery(s, b);
      SomeDelivery(s, c);
      ThenInjective(scan.data, Stopped(r, size, b), Stopped(r, size, c));
    }
    if DeliveryMatters(s) {
      var f: Feed, g: Feed :| Delivers(f, s) && Delivers(g, s) && Loop(f) != Loop(g);
      var b := EveryDelivery(f);
      var c := EveryDelivery(g);
    }
  }

  /** When every buffered length resumes at the same place t, lengths differ exactly if t decodes and two
      of them leave different data. */
  lemma SameResumption(r: seq<byte>, size: int, t: seq<byte>, low: nat)
    requires size < 0 && forall b: nat :: Buffered(r, size, b) ==> Remaining(r, size, b) == t
    requires Buffered(r, size, low) && low <= -size
    ensures !Decode(t).Negative? ==> LastNegative(r, size)
    ensures LengthsDiffer(r, size) <==> |r| > -size && Decode(t).Body?
  {
    if |r| > -size && Decode(t).Body? {
      StoppedIs(r, -size, low);
      StoppedIs(r, -size, 1 - size);
      DataShows(r, size, low, 1 - size);
    } else {
      forall b: nat | Buffered(r, size, b)
        ensures Stopped(r, size, b) == Then([], Decode(t))
      {
        StoppedIs(r, -size, b);
      }
    }
  }

  /** For -1: exactly when two bytes or more follow and all but the first of them decode. */
  lemma MinusOneMatters(s: seq<byte>)
    requires Scanned(s).Stops? && Scanned(s).size == -1 && !Decode(Drop(Scanned(s).rest, 1)).Negative?
    ensures DeliveryMatters(s) <==> |Scanned(s).rest| >= 2 && Decode(Drop(Scanned(s).rest, 1)).Body?
  {
    var r := Scanned(s).rest;
    forall b: nat | Buffered(r, -1, b)
      ensures Remaining(r, -1, b) == Drop(r, 1)
    {
      StoppedIs(r, 1, b);
    }
    SameResumption(r, -1, Drop(r, 1), if r == [] then 0 else 1);
    NegativeMatters(s);
  }

  /** For -2 nothing is ever skipped: exactly when three bytes or more follow and they decode. */
  lemma MinusTwoMatters(s: seq<byte>)
    requires Scanned(s).Stops? && Scanned(s).size == -2 && !Decode(Scanned(s).rest).Negative?
    ensures DeliveryMatters(s) <==> |Scanned(s).rest| >= 3 && Decode(Scanned(s).rest).Body?
  {
    var r := Scanned(s).rest;
    forall b: nat | Buffered(r, -2, b)
      ensures Remaining(r, -2, b) == r
    {
      StoppedIs(r, 2, b);
    }
    SameResumption(r, -2, r, 0);
    NegativeMatters(s);
  }

  /** The result for -k, k at least 3, when b bytes were buffered: all but the last k are data, and
      reading resumes k - 2 bytes back. */
  function Backed(r: seq<byte>, k: int, b: nat): Outcome
    requires k >= 3 && b <= |r|
  {
    Then(r[..if b < k then 0 else b - k], Decode(r[if b < k - 2 then 0 else b - (k - 2)..]))
  }

  ghost predicate BackedDiffer(r: seq<byte>, k: int)
    requires k >= 3
  {
    exists b, c :: 0 <= b <= |r| && 0 <= c <= |r| && Backed(r, k, b) != Backed(r, k, c)
  }

  /** For -k, k at least 3: exactly when two lengths from none to all of the rest give different results. */
  lemma SmallerMatters(s: seq<byte>, k: int)
    requires Scanned(s).Stops? && k >= 3 && Scanned(s).size == -k
    requires forall b :: 0 <= b <= |Scanned(s).rest| ==> !Backed(Scanned(s).rest, k, b).Negative?
    ensures DeliveryMatters(s) <==> BackedDiffer(Scanned(s).rest, k)
  {
    var r, size := Scanned(s).rest, Scanned(s).size;
    forall b: nat | Buffered(r, size, b)
      ensures Stopped(r, size, b) == Backed(r, k, b) && !Decode(Remaining(r, size, b)).Negative?
    {
      StoppedIsBacked(r, size, k, b);
    }
    NegativeMatters(s);
    DifferAlike(r, size, k);
  }

  lemma StoppedIsBacked(r: seq<byte>, size: int, k: int, b: nat)
    requires k >= 3 && size == -k && b <= |r|
    ensures Stopped(r, size, b) == Backed(r, k, b)
    ensures !Backed(r, k, b).Negative? ==> !Decode(Remaining(r, size, b)).Negative?
  {
    StoppedIs(r, k, b);
  }

  lemma DifferAlike(r: seq<byte>, size: int, k: int)
    requires k >= 3 && size == -k && forall b: nat :: Buffered(r, size, b) ==> Stopped(r, size, b) == Backed(r, k, b)
    ensures LengthsDiffer(r, size) <==> BackedDiffer(r, k)
  {
    if BackedDiffer(r, k) {
      var b, c :| 0 <= b <= |r| && 0 <= c <= |r| && Backed(r, k, b) != Backed(r, k, c);
      assert Buffered(r, size, b) && Buffered(r, size, c);
    }
  }

  /** Different data before one body. */
  lemma DataShows(r: seq<byte>, size: int, b: nat, c: nat)
    requires b <= c <= |r| && Buffered(r, size, b) && Buffered(r, size, c)
    requires Remaining(r, size, b) == Remaining(r, size, c) && Decode(Remaining(r, size, b)).Body?
    requires |SliceTo(r[..b], size)| != |SliceTo(r[..c], size)|
    ensures LengthsDiffer(r, size)
  {
    var body := Decode(Remaining(r, size, b)).bytes;
    assert |SliceTo(r[..b], size) + body| != |SliceTo(r[..c], size) + body|;
  }

  // ---------- delivering byte by byte ----------

  /** Before its last byte has arrived the marker is not found. */
  lemma NotYet(s: seq<byte>, marker: seq<byte>, n: nat)
    requires Find(s, marker) >= 0 && n < Find(s, marker) + |marker| && n <= |s|
    ensures Absent(s, marker, n)
  {
    assert s[..n] + s[n..] == s;
    if Find(s[..n], marker) >= 0 { FindStable(s[..n], s[n..], marker); }
  }

  /** The marker is not found in the first n bytes. */
  predicate Absent(s: seq<byte>, marker: seq<byte>, n: nat) { n <= |s| && Find(s[..n], marker) < 0 }

  /** Single bytes are received one after the other until the marker is complete. */
  lemma {:induction false} FillSingles(s: seq<byte>, m: nat, j: nat, rest: Fragments, marker: seq<byte>)
    requires m <= j <= |s| && forall x :: m <= x < j ==> Absent(s, marker, x)
    ensures FillUntil(Feed(s[..m], Singles(s[m..j]) + rest), marker) == FillUntil(Feed(s[..j], rest), marker)
    decreases j - m
  {
    var all := Singles(s[m..j]) + rest;
    if m < j {
      var more := Singles(s[m + 1..j]) + rest;
      assert all == [[s[m]]] + more && s[..m] + [s[m]] == s[..m + 1];
      assert Absent(s, marker, m);
      FillNext(s[..m], [s[m]], more, marker);
      FillSingles(s, m + 1, j, rest, marker);
    } else {
      assert all == rest;
    }
  }

  lemma {:induction false} FlattenConcat(f: Fragments, g: Fragments)
    ensures Flatten(f + g) == Flatten(f) + Flatten(g)
  {
    if f == [] {
      assert f + g == g;
    } else {
      assert (f + g)[1..] == f[1..] + g;
      FlattenConcat(f[1..], g);
    }
  }

  lemma AfterPrefix(s: seq<byte>, i: nat, width: nat, p: nat)
    requires i + width + p <= |s|
    ensures After(s[..i + width + p], i, width) == After(s, i, width)[..p]
  {
  }

  lemma BeyondPrefix(s: seq<byte>, t: seq<byte>, marker: seq<byte>, p: nat)
    requires Find(s, marker) >= 0 && Find(t, marker) == Find(s, marker)
    requires Find(s, marker) + |marker| + p <= |s| && t == s[..Find(s, marker) + |marker| + p]
    ensures p <= |Beyond(s, marker)| && Beyond(t, marker) == Beyond(s, marker)[..p]
  {
    AfterPrefix(s, Find(s, marker), |marker|, p);
  }

  /** The fragment with the marker's last byte is still received. */
  lemma LateNext(s: seq<byte>, marker: seq<byte>, e: nat, n: nat, rest: Fragments)
    requires Find(s, marker) >= 0 && 0 < e == Find(s, marker) + |marker| && e <= n <= |s|
    ensures FillUntil(Feed(s[..e - 1], [s[e - 1..n]] + rest), marker) == FillUntil(Feed(s[..n], rest), marker)
  {
    NotYet(s, marker, e - 1);
    assert s[..e - 1] + s[e - 1..n] == s[..n];
    FillNext(s[..e - 1], s[e - 1..n], rest, marker);
  }

  lemma FillNext(buf: seq<byte>, chunk: seq<byte>, rest: Fragments, marker: seq<byte>)
    requires Find(buf, marker) < 0
    ensures FillUntil(Feed(buf, [chunk] + rest), marker) == FillUntil(Feed(buf + chunk, rest), marker)
  {
    assert ([chunk] + rest)[1..] == rest;
  }

  /** Then nothing more is. */
  lemma LateDone(s: seq<byte>, marker: seq<byte>, n: nat, rest: Fragments)
    requires Find(s, marker) >= 0 && Find(s, marker) + |marker| <= n <= |s|
    ensures FillUntil(Feed(s[..n], rest), marker) == Feed(s[..n], rest)
  {
    FindEarly(s, marker, n);
  }

  lemma LateCut(s: seq<byte>, marker: seq<byte>, e: nat, p: nat)
    requires Find(s, marker) >= 0 && e == Find(s, marker) + |marker| && e + p <= |s|
    ensures p <= |Beyond(s, marker)| && Beyond(s[..e + p], marker) == Beyond(s, marker)[..p]
  {
    FindEarly(s, marker, e + p);
    BeyondPrefix(s, s[..e + p], marker, p);
  }

  /** Up to the marker's last byte. */
  lemma LateFrom(s: seq<byte>, marker: seq<byte>, m: nat, e: nat, rest: Fragments)
    requires Find(s, marker) >= 0 && m < e == Find(s, marker) + |marker|
    ensures FillUntil(Feed(s[..m], Singles(s[m..e - 1]) + rest), marker) == FillUntil(Feed(s[..e - 1], rest), marker)
  {
    forall x | m <= x < e - 1
      ensures Absent(s, marker, x)
    {
      NotYet(s, marker, x);
    }
    FillSingles(s, m, e - 1, rest, marker);
  }

  /** From m bytes on: single bytes up to the marker's last, which comes with others up to n. */
  lemma LateChain(s: seq<byte>, marker: seq<byte>, m: nat, e: nat, n: nat, rest: Fragments)
    requires Find(s, marker) >= 0 && m < e == Find(s, marker) + |marker| && e <= n <= |s|
    ensures FillUntil(Feed(s[..m], Singles(s[m..e - 1]) + ([s[e - 1..n]] + rest)), marker) == Feed(s[..n], rest)
  {
    LateFrom(s, marker, m, e, [s[e - 1..n]] + rest);
    LateNext(s, marker, e, n, rest);
    LateDone(s, marker, n, rest);
  }
}
