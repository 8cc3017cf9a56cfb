/**
  Every result that `_decode_chunked` of os_net/comp_networking/examples/http_client.py can give for a
  stream, whatever its sizes: a semantics over the stream and the number of bytes buffered, without
  sockets or fragments, and the proof that it is exact.
*/
module DeliveryOutcomes {
  import opened Bytes
  import opened Chunked
  import opened ChunkedDelivery
  import opened HttpClient
  import opened Sequences
  import opened Wrappers

  /** Receiving until `need` bytes are there, of `total`, with `have` to begin with: nothing if they are,
      everything if they never will be, else less than one fragment too many. */
  predicate Reaches(total: nat, have: nat, need: int, got: nat) {
    if have >= need then got == have
    else if total < need then got == total
    else need <= got <= total && got < need + RECV_SIZE
  }

  /** How many bytes complete the size line; out of reach when there is no line end. */
  function LineEnd(s: seq<byte>): nat { if Find(s, CRLF) < 0 then |s| + 1 else Find(s, CRLF) + 2 }

  /** Of b bytes buffered, those behind the size line. */
  function Left(s: seq<byte>, b: nat): nat { if b + |Rest(s)| < |s| then 0 else b + |Rest(s)| - |s| }

  function NextHeld(r: seq<byte>, size: int, c: nat): nat
    requires c <= |r|
  {
    |SliceFrom(r[..c], size + 2)|
  }

  /** The decoder can return o for s when it starts with the first m bytes buffered. */
  ghost predicate Possible(s: seq<byte>, m: nat, o: Outcome)
    decreases |s|, 1
  {
    exists b: nat :: Reaches(|s|, m, LineEnd(s), b) && PossibleFrom(s, b, o)
  }

  /** And with the size line among the b bytes buffered. */
  ghost predicate PossibleFrom(s: seq<byte>, b: nat, o: Outcome)
    decreases |s|, 0
  {
    var size := Size(Line(s));
    if size.None? then o == ValueError
    else if size.value == 0 then o == Body([])
    else
      exists c: nat, next: Outcome ::
        Reaches(|Rest(s)|, Left(s, b), size.value + 2, c) && c <= |Rest(s)|
        && Possible(Remaining(Rest(s), size.value, c), NextHeld(Rest(s), size.value, c), next)
        && o == Then(SliceTo(Rest(s)[..c], size.value), next)
  }

  lemma RestShorter(s: seq<byte>)
    requires Size(Line(s)).Some? && Size(Line(s)).value != 0
    ensures |Rest(s)| < |s|
  {
  }

  // ---------- every delivery's result is possible ----------

  lemma {:induction false} UntilReaches(f: Feed)
    requires Deliverable(f.fragments)
    ensures Reaches(|f.All()|, |f.buf|, LineEnd(f.All()), |FillUntil(f, CRLF).buf|)
    ensures Deliverable(FillUntil(f, CRLF).fragments)
    decreases |f.fragments|
  {
    var s := f.All();
    assert s[..|f.buf|] == f.buf;
    if Find(f.buf, CRLF) >= 0 {
      FindStable(f.buf, Flatten(f.fragments), CRLF);
    } else {
      NotFoundYet(s, |f.buf|);
      if f.fragments == [] {
        NothingMore(f.buf);
      } else {
        Shifted(f.buf, f.fragments);
        var next := Feed(f.buf + f.fragments[0], f.fragments[1..]);
        UntilReaches(next);
      }
    }
  }

  /** A marker not found in the buffer is not complete in it. */
  lemma NotFoundYet(s: seq<byte>, n: nat)
    requires n <= |s| && Find(s[..n], CRLF) < 0
    ensures n < LineEnd(s)
  {
    if Find(s, CRLF) >= 0 && n >= Find(s, CRLF) + 2 { FindEarly(s, CRLF, n); }
  }

  lemma {:induction false} ToReaches(k: Feed, n: int)
    requires Deliverable(k.fragments)
    ensures Reaches(|k.All()|, |k.buf|, n, |FillTo(k, n).buf|) && Deliverable(FillTo(k, n).fragments)
    decreases |k.fragments|
  {
    if |k.buf| < n && k.fragments != [] {
      Shifted(k.buf, k.fragments);
      ToReaches(Feed(k.buf + k.fragments[0], k.fragments[1..]), n);
    }
  }

  lemma CutIs(k: Feed, size: int)
    ensures var c := |FillTo(k, size + 2).buf|;
            c <= |k.All()| && Cut(k, size).data == SliceTo(k.All()[..c], size)
            && Cut(k, size).next.All() == Remaining(k.All(), size, c) && |Cut(k, size).next.buf| == NextHeld(k.All(), size, c)
  {
    FilledTo(k, size + 2);
    var h := FillTo(k, size + 2);
    assert h.All()[..|h.buf|] == h.buf && h.All()[|h.buf|..] == Flatten(h.fragments);
  }

  /** With the size line received, the turn and what is left are those of the stream. */
  lemma LineReceived(g: Feed)
    requires Filled(g, CRLF)
    ensures Line(g.buf) == Line(g.All()) && Rest(g.buf) + Flatten(g.fragments) == Rest(g.All())
    ensures |Rest(g.buf)| == Left(g.All(), |g.buf|)
  {
    SplitAgrees(g, CRLF);
  }

  /** What follows the size line, as one turn. */
  function Behind(g: Feed): Feed { Feed(Rest(g.buf), g.fragments) }

  lemma ChunkResult(g: Feed, size: int, next: Outcome)
    requires Filled(g, CRLF) && Deliverable(g.fragments) && Size(Line(g.All())) == Some(size) && size != 0
    requires var t := Cut(Behind(g), size).next; Possible(t.All(), |t.buf|, next)
    ensures PossibleFrom(g.All(), |g.buf|, Then(Cut(Behind(g), size).data, next))
  {
    LineReceived(g);
    ToReaches(Behind(g), size + 2);
    CutIs(Behind(g), size);
    ChunkPossible(g.All(), |g.buf|, size, |FillTo(Behind(g), size + 2).buf|, next);
  }

  lemma {:induction false} EveryResultPossible(f: Feed)
    requires Deliverable(f.fragments)
    ensures Possible(f.All(), |f.buf|, Loop(f))
    decreases |f.All()|
  {
    var s, g := f.All(), FillUntil(f, CRLF);
    FilledUntil(f, CRLF);
    UntilReaches(f);
    LineReceived(g);
    var size := Size(Line(s));
    if size.Some? && size.value != 0 {
      var t := Cut(Behind(g), size.value);
      assert Turned(f) == t;
      ToReaches(Behind(g), size.value + 2);
      EveryResultPossible(t.next);
      ChunkResult(g, size.value, Loop(t.next));
    }
    assert PossibleFrom(s, |g.buf|, Loop(f));
  }

  lemma ChunkPossible(s: seq<byte>, b: nat, size: int, c: nat, next: Outcome)
    requires Size(Line(s)) == Some(size) && size != 0
    requires Reaches(|Rest(s)|, Left(s, b), size + 2, c) && c <= |Rest(s)|
    requires Possible(Remaining(Rest(s), size, c), NextHeld(Rest(s), size, c), next)
    ensures PossibleFrom(s, b, Then(SliceTo(Rest(s)[..c], size), next))
  {
  }

  // ---------- every possible result is some delivery's ----------

  /** Fragments that bring the buffer from m bytes to b: single bytes up to the last one needed, which
      comes with whatever is too many. */
  function Bring(s: seq<byte>, m: nat, need: int, b: nat): Fragments
    requires m <= |s| && b <= |s| && (m < need <= |s| ==> need <= b)
  {
    if m >= need then []
    else if |s| < need then Singles(s[m..])
    else Singles(s[m..need - 1]) + [s[need - 1..b]]
  }

  lemma Brings(s: seq<byte>, m: nat, need: int, b: nat)
    requires m <= |s| && Reaches(|s|, m, need, b)
    ensures m <= b <= |s| && Deliverable(Bring(s, m, need, b)) && Flatten(Bring(s, m, need, b)) == s[m..b]
  {
    if m < need && |s| < need {
      FlattenSingles(s[m..]);
    } else if m < need {
      var last := [s[need - 1..b]];
      FlattenConcat(Singles(s[m..need - 1]), last);
      FlattenSingles(s[m..need - 1]);
      assert last[1..] == [];
      assert s[m..need - 1] + s[need - 1..b] == s[m..b];
    }
  }

  lemma NeverFound(s: seq<byte>, x: nat)
    requires Find(s, CRLF) < 0 && x <= |s|
    ensures Absent(s, CRLF, x)
  {
    assert s[..x] + s[x..] == s;
    if Find(s[..x], CRLF) >= 0 { FindStable(s[..x], s[x..], CRLF); }
  }

  lemma UntilBring(s: seq<byte>, m: nat, need: nat, b: nat, rest: Fragments)
    requires need == LineEnd(s) && m <= |s| && Reaches(|s|, m, need, b) && b <= |s| && (|s| < need ==> rest == [])
    ensures FillUntil(Feed(s[..m], Bring(s, m, need, b) + rest), CRLF) == Feed(s[..b], rest)
  {
    if |s| < need {
      UntilNever(s, m);
      NothingAdded(Singles(s[m..]));
      assert s[..b] == s;
    } else if m >= need {
      UntilHeld(s, m, rest);
    } else {
      UntilLate(s, m, need, b, rest);
    }
  }

  lemma NothingAdded(f: Fragments)
    ensures f + [] == f
  {
  }

  lemma UntilHeld(s: seq<byte>, m: nat, rest: Fragments)
    requires Find(s, CRLF) >= 0 && LineEnd(s) <= m <= |s|
    ensures FillUntil(Feed(s[..m], [] + rest), CRLF) == Feed(s[..m], rest)
  {
    assert [] + rest == rest;
    LateDone(s, CRLF, m, rest);
  }

  lemma UntilNever(s: seq<byte>, m: nat)
    requires Find(s, CRLF) < 0 && m <= |s|
    ensures FillUntil(Feed(s[..m], Singles(s[m..])), CRLF) == Feed(s, [])
  {
    forall x | m <= x < |s|
      ensures Absent(s, CRLF, x)
    {
      NeverFound(s, x);
    }
    assert s[m..|s|] == s[m..] && s[..|s|] == s && Singles(s[m..]) + [] == Singles(s[m..]);
    FillSingles(s, m, |s|, [], CRLF);
  }

  lemma UntilLate(s: seq<byte>, m: nat, need: nat, b: nat, rest: Fragments)
    requires Find(s, CRLF) >= 0 && need == Find(s, CRLF) + 2 && m < need <= b <= |s|
    ensures FillUntil(Feed(s[..m], Singles(s[m..need - 1]) + [s[need - 1..b]] + rest), CRLF) == Feed(s[..b], rest)
  {
    var last := [s[need - 1..b]];
    Regroup(Singles(s[m..need - 1]), last, rest);
    LateChain(s, CRLF, m, need, b, rest);
  }

  lemma Regroup(a: Fragments, b: Fragments, c: Fragments)
    ensures a + b + c == a + (b + c)
  {
  }

  lemma {:induction false} ToSingles(s: seq<byte>, m: nat, j: nat, rest: Fragments, n: int)
    requires m <= j <= |s| && j <= n
    ensures FillTo(Feed(s[..m], Singles(s[m..j]) + rest), n) == FillTo(Feed(s[..j], rest), n)
    decreases j - m
  {
    var all := Singles(s[m..j]) + rest;
    if m < j {
      assert all[0] == [s[m]] && s[..m] + [s[m]] == s[..m + 1];
      assert all[1..] == Singles(s[m + 1..j]) + rest;
      ToSingles(s, m + 1, j, rest, n);
    } else {
      assert all == rest;
    }
  }

  lemma ToBring(s: seq<byte>, m: nat, need: int, b: nat, rest: Fragments)
    requires m <= |s| && Reaches(|s|, m, need, b) && b <= |s| && (m < need && |s| < need ==> rest == [])
    ensures FillTo(Feed(s[..m], Bring(s, m, need, b) + rest), need) == Feed(s[..b], rest)
  {
    if m >= need {
      assert [] + rest == rest;
    } else if |s| < need {
      assert s[m..|s|] == s[m..];
      ToSingles(s, m, |s|, [], need);
    } else {
      var last := [s[need - 1..b]];
      assert Singles(s[m..need - 1]) + last + rest == Singles(s[m..need - 1]) + (last + rest);
      ToSingles(s, m, need - 1, last + rest, need);
      assert (last + rest)[1..] == rest && s[..need - 1] + s[need - 1..b] == s[..b];
    }
  }

  lemma ReachesWithin(total: nat, have: nat, need: int, got: nat)
    requires Reaches(total, have, need, got) && have <= total
    ensures have <= got <= total
  {
  }

  /** The size line of a prefix that holds it. */
  lemma PrefixLine(s: seq<byte>, b: nat, rest: Fragments)
    requires b <= |s| && Flatten(rest) == s[b..] && (LineEnd(s) <= b || rest == [])
    ensures Line(s[..b]) == Line(s) && Rest(s[..b]) + s[b..] == Rest(s) && Rest(s[..b]) == Rest(s)[..Left(s, b)]
  {
    var g := Feed(s[..b], rest);
    assert g.All() == s;
    if LineEnd(s) <= b { FindEarly(s, CRLF, b); }
    LineReceived(g);
    assert Rest(s)[..|Rest(s[..b])|] == Rest(s[..b]);
  }

  /** A stream and what was brought of it, then the rest. */
  lemma Delivered(s: seq<byte>, m: nat, bring: Fragments, b: nat, rest: Fragments)
    requires m <= b <= |s| && Deliverable(bring) && Flatten(bring) == s[m..b] && Deliverable(rest) && Flatten(rest) == s[b..]
    ensures Delivers(Feed(s[..m], bring + rest), s)
  {
    FlattenConcat(bring, rest);
    assert s[..m] + (s[m..b] + s[b..]) == s;
  }

  /** A delivery that has b bytes buffered when its size line is complete, and `inner` still to come. */
  lemma RealizeLine(s: seq<byte>, m: nat, b: nat, inner: Fragments) returns (f: Feed)
    requires m <= |s| && Reaches(|s|, m, LineEnd(s), b) && b <= |s| && Deliverable(inner) && Flatten(inner) == s[b..]
    ensures Delivers(f, s) && f.buf == s[..m] && FillUntil(f, CRLF) == Feed(s[..b], inner)
    ensures LineEnd(s) <= b || inner == []
  {
    var need := LineEnd(s);
    ReachesWithin(|s|, m, need, b);
    if |s| < need { NothingLeft(inner); }
    Brings(s, m, need, b);
    Delivered(s, m, Bring(s, m, need, b), b, inner);
    UntilBring(s, m, need, b, inner);
    f := Feed(s[..m], Bring(s, m, need, b) + inner);
  }

  /** Results that end at the size line. */
  lemma RealizeEnd(s: seq<byte>, m: nat, b: nat, o: Outcome) returns (f: Feed)
    requires m <= |s| && Reaches(|s|, m, LineEnd(s), b) && PossibleFrom(s, b, o)
    requires Size(Line(s)).None? || Size(Line(s)).value == 0
    ensures Delivers(f, s) && f.buf == s[..m] && Loop(f) == o
  {
    ReachesWithin(|s|, m, LineEnd(s), b);
    FlattenSingles(s[b..]);
    f := RealizeLine(s, m, b, Singles(s[b..]));
    PrefixLine(s, b, Singles(s[b..]));
  }

  /** The fragments that bring a chunk and then deliver what follows it. */
  function Inner(r: seq<byte>, left: nat, need: int, c: nat, after: Feed): Fragments
    requires left <= |r| && c <= |r| && (left < need <= |r| ==> need <= c)
  {
    Bring(r, left, need, c) + after.fragments
  }

  /** A delivery of what follows the chunk. */
  predicate Follows(r: seq<byte>, size: int, c: nat, after: Feed) {
    && c <= |r| && Deliverable(after.fragments) && Flatten(after.fragments) == r[c..]
    && after.buf == SliceFrom(r[..c], size + 2)
  }

  lemma InnerCut(r: seq<byte>, left: nat, size: int, c: nat, after: Feed)
    requires left <= |r| && Reaches(|r|, left, size + 2, c) && Follows(r, size, c, after)
    ensures Cut(Feed(r[..left], Inner(r, left, size + 2, c, after)), size) == Data(SliceTo(r[..c], size), after)
  {
    if left < size + 2 && |r| < size + 2 { NothingLeft(after.fragments); }
    ToBring(r, left, size + 2, c, after.fragments);
  }

  /** The turn that takes the chunk. */
  lemma InnerTurn(s: seq<byte>, b: nat, size: int, c: nat, after: Feed, inner: Fragments)
    requires b <= |s| && (LineEnd(s) <= b || inner == []) && Size(Line(s)) == Some(size) && size != 0
    requires Left(s, b) <= |Rest(s)| && Reaches(|Rest(s)|, Left(s, b), size + 2, c) && Follows(Rest(s), size, c, after)
    requires inner == Inner(Rest(s), Left(s, b), size + 2, c, after) && Flatten(inner) == s[b..]
    ensures Sized(Feed(s[..b], inner)) == Data(SliceTo(Rest(s)[..c], size), after)
  {
    PrefixLine(s, b, inner);
    InnerCut(Rest(s), Left(s, b), size, c, after);
  }

  /** A result that goes on behind a chunk, given a delivery of what follows. */
  lemma RealizeChunk(s: seq<byte>, m: nat, b: nat, size: int, c: nat, after: Feed) returns (f: Feed)
    requires m <= |s| && Reaches(|s|, m, LineEnd(s), b) && Size(Line(s)) == Some(size) && size != 0
    requires Reaches(|Rest(s)|, Left(s, b), size + 2, c) && Follows(Rest(s), size, c, after)
    ensures Delivers(f, s) && f.buf == s[..m] && Loop(f) == Then(SliceTo(Rest(s)[..c], size), Loop(after))
  {
    ReachesWithin(|s|, m, LineEnd(s), b);
    RestOfPrefix(s, b);
    var inner := Inner(Rest(s), Left(s, b), size + 2, c, after);
    InnerDelivered(Rest(s), Left(s, b), size + 2, c, after.fragments);
    f := RealizeLine(s, m, b, inner);
    InnerTurn(s, b, size, c, after, inner);
  }

  lemma InnerDelivered(r: seq<byte>, left: nat, need: int, c: nat, rest: Fragments)
    requires left <= |r| && Reaches(|r|, left, need, c) && c <= |r| && Deliverable(rest) && Flatten(rest) == r[c..]
    ensures Deliverable(Bring(r, left, need, c) + rest) && Flatten(Bring(r, left, need, c) + rest) == r[left..]
  {
    Brings(r, left, need, c);
    FlattenConcat(Bring(r, left, need, c), rest);
    assert r[left..c] + r[c..] == r[left..];
  }

  /** Behind the size line the stream goes on as its rest does. */
  lemma RestOfPrefix(s: seq<byte>, b: nat)
    requires b <= |s| && (LineEnd(s) <= b || b == |s|)
    ensures Left(s, b) <= |Rest(s)| && s[b..] == Rest(s)[Left(s, b)..]
  {
  }

  lemma Continues(r: seq<byte>, size: int, c: nat, after: Feed)
    requires c <= |r| && Delivers(after, Remaining(r, size, c)) && |after.buf| == NextHeld(r, size, c)
    ensures Follows(r, size, c, after)
  {
    var t := SliceFrom(r[..c], size + 2);
    assert after.All()[..|t|] == t && after.All()[|t|..] == r[c..];
    assert after.All()[..|t|] == after.buf && after.All()[|t|..] == Flatten(after.fragments);
  }

  lemma {:induction false} SomeDeliveryGives(s: seq<byte>, m: nat, o: Outcome) returns (f: Feed)
    requires m <= |s| && Possible(s, m, o)
    ensures Delivers(f, s) && f.buf == s[..m] && Loop(f) == o
    decreases |s|
  {
    var b: nat :| Reaches(|s|, m, LineEnd(s), b) && PossibleFrom(s, b, o);
    var size := Size(Line(s));
    if size.None? || size.value == 0 {
      f := RealizeEnd(s, m, b, o);
    } else {
      var r, n := Rest(s), size.value;
      var c: nat, next: Outcome :|
        Reaches(|r|, Left(s, b), n + 2, c) && c <= |r| && Possible(Remaining(r, n, c), NextHeld(r, n, c), next)
        && o == Then(SliceTo(r[..c], n), next);
      RestShorter(s);
      var after := SomeDeliveryGives(Remaining(r, n, c), NextHeld(r, n, c), next);
      Continues(r, n, c, after);
      f := RealizeChunk(s, m, b, n, c, after);
    }
  }

  /** The semantics is exact: its results are those of the deliveries that begin with m bytes prefetched. */
  lemma PossibleIff(s: seq<byte>, m: nat, o: Outcome)
    requires m <= |s|
    ensures Possible(s, m, o) <==> exists f: Feed :: Delivers(f, s) && |f.buf| == m && Loop(f) == o
  {
    if Possible(s, m, o) {
      var f := SomeDeliveryGives(s, m, o);
    }
    if f: Feed :| Delivers(f, s) && |f.buf| == m && Loop(f) == o {
      EveryResultPossible(f);
    }
  }

  ghost predicate TwoPossible(s: seq<byte>) {
    exists m: nat, n: nat, o: Outcome, p: Outcome ::
      m <= |s| && n <= |s| && Possible(s, m, o) && Possible(s, n, p) && o != p
  }

  /** For every stream, however many negative sizes it has: delivery matters exactly when two results are
      possible. */
  lemma DeliveryMattersIff(s: seq<byte>)
    ensures DeliveryMatters(s) <==> TwoPossible(s)
  {
    if DeliveryMatters(s) {
      var f: Feed, g: Feed :| Delivers(f, s) && Delivers(g, s) && Loop(f) != Loop(g);
      EveryResultPossible(f);
      EveryResultPossible(g);
    }
    if TwoPossible(s) {
      var m: nat, n: nat, o: Outcome, p: Outcome :|
        m <= |s| && n <= |s| && Possible(s, m, o) && Possible(s, n, p) && o != p;
      var f := SomeDeliveryGives(s, m, o);
      var g := SomeDeliveryGives(s, n, p);
    }
  }
}
