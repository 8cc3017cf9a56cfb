/**
  `http_get` of os_net/comp_networking/examples/http_client.py from the first byte received: the head,
  the choice of framing, and the body.
*/
module HttpResponse {
  import opened Bytes
  import opened Chunked
  import opened ChunkedDelivery
  import opened HttpClient
  import opened HttpHead
  import opened Sequences
  import opened Wrappers

  /** The body of a response, as a function of the byte stream alone. */
  function Response(s: seq<byte>): Outcome {
    var rest := Beyond(s, BLANK);
    match ReadHead(Until(s, BLANK))
    case BadStatus => ValueError
    case Head(true, _) => Decode(rest)
    case Head(false, NotANumber) => ValueError
    case Head(false, Octets(n)) => if n < 0 then Negative else Body(Take(rest, n))
    case Head(false, Absent) => Body(rest)
  }

  /** What the framings make of the bytes behind the head. */
  function Framed(head: Head, k: Feed): Outcome {
    match head
    case BadStatus => ValueError
    case Head(true, _) => Loop(k)
    case Head(false, NotANumber) => ValueError
    case Head(false, Octets(n)) => Body(SliceTo(FillTo(k, n).buf, n))
    case Head(false, Absent) => Body(k.All())
  }

  /** Where the socket stands when the head is complete, or the stream at its end. */
  function Opened(f: Fragments): Feed { FillUntil(Feed([], f), BLANK) }

  function Remainder(f: Fragments): Feed { Feed(Beyond(Opened(f).buf, BLANK), Opened(f).fragments) }

  /** What `http_get` returns for these fragments, whatever the sizes. */
  function Got(f: Fragments): Outcome { Framed(ReadHead(Until(Opened(f).buf, BLANK)), Remainder(f)) }

  // ---------- the loops ----------

  /** `_read_until` */
  method ReadUntil(sock: Socket, marker: seq<byte>) returns (before: seq<byte>, rest: seq<byte>)
    requires Deliverable(sock.fragments)
    modifies sock
    ensures Deliverable(sock.fragments)
    ensures var g := FillUntil(Feed([], old(sock.fragments)), marker);
            before == Until(g.buf, marker) && rest == Beyond(g.buf, marker) && sock.fragments == g.fragments
    ensures before == Until(Flatten(old(sock.fragments)), marker)
    ensures rest + Flatten(sock.fragments) == Beyond(Flatten(old(sock.fragments)), marker)
  {
    UntilAgrees(sock.fragments, marker);
    var buf := Fill(sock, [], marker);
    var i := Find(buf, marker);
    if i == -1 {
      return buf, [];
    }
    return buf[..i], buf[i + |marker|..];
  }

  /** Waiting for a marker splits what is buffered as the whole stream would be split. */
  lemma UntilAgrees(f: Fragments, marker: seq<byte>)
    ensures var g := FillUntil(Feed([], f), marker);
            Until(g.buf, marker) == Until(Flatten(f), marker)
            && Beyond(g.buf, marker) + Flatten(g.fragments) == Beyond(Flatten(f), marker)
  {
    var start := Feed([], f);
    FilledUntil(start, marker);
    assert start.All() == Flatten(f);
    SplitAgrees(FillUntil(start, marker), marker);
  }

  /** `_recv_exactly`: the first n bytes there are, or all of them, and what was received beyond. A
      negative n cuts the prefetched bytes from their end. */
  method RecvExactly(sock: Socket, n: int, prefetched: seq<byte>) returns (data: seq<byte>, rest: seq<byte>)
    requires Deliverable(sock.fragments)
    modifies sock
    ensures Deliverable(sock.fragments)
    ensures data == SliceTo(FillTo(Feed(prefetched, old(sock.fragments)), n).buf, n)
    ensures n >= 0 ==> data == Take(prefetched + Flatten(old(sock.fragments)), n)
    ensures n < 0 ==> data == SliceTo(prefetched, n) && sock.fragments == old(sock.fragments)
    ensures data + rest + Flatten(sock.fragments) == prefetched + Flatten(old(sock.fragments))
  {
    CountAgrees(Feed(prefetched, sock.fragments), n);
    var buf := FillCount(sock, prefetched, n);
    data, rest := SliceTo(buf, n), SliceFrom(buf, n);
    assert data + rest == buf;
  }

  lemma CountAgrees(k: Feed, n: int)
    ensures FillTo(k, n).All() == k.All()
    ensures n >= 0 ==> SliceTo(FillTo(k, n).buf, n) == Take(k.All(), n)
  {
    FilledTo(k, n);
    var h := FillTo(k, n);
    if |h.buf| < n { NothingMore(h.buf); }
  }

  /** The loop that reads to end-of-file. */
  method RecvAll(sock: Socket, rest: seq<byte>) returns (body: seq<byte>)
    requires Deliverable(sock.fragments)
    modifies sock
    ensures body == rest + Flatten(old(sock.fragments)) && sock.fragments == []
  {
    body := rest;
    while true
      invariant Deliverable(sock.fragments)
      invariant body + Flatten(sock.fragments) == rest + Flatten(old(sock.fragments))
      decreases |sock.fragments|
    {
      if sock.fragments != [] { Shifted(body, sock.fragments); }
      var chunk := sock.Recv();
      if chunk == [] {
        NothingMore(body);
        return;
      }
      body := body + chunk;
    }
  }

  /** The choice of framing: chunked before content-length before end-of-file. */
  method ReadFramed(sock: Socket, head: Head, rest: seq<byte>) returns (r: Outcome)
    requires Deliverable(sock.fragments)
    modifies sock
    ensures r == Framed(head, Feed(rest, old(sock.fragments)))
  {
    match head {
      case BadStatus =>
        return ValueError;
      case Head(chunked, length) =>
        if chunked {
          r := DecodeChunked(sock, rest);
        } else {
          match length {
            case NotANumber =>
              return ValueError;
            case Octets(n) =>
              var body, _ := RecvExactly(sock, n, rest);
              return Body(body);
            case Absent =>
              var body := RecvAll(sock, rest);
              return Body(body);
          }
        }
    }
  }

  /** `http_get`, from the first byte received to the body. */
  method HttpGet(sock: Socket) returns (r: Outcome)
    requires Deliverable(sock.fragments)
    modifies sock
    ensures r == Got(old(sock.fragments))
  {
    var before, rest := ReadUntil(sock, BLANK);
    var head := ParseHead(before);
    r := ReadFramed(sock, head, rest);
  }

  // ---------- the body depends on the stream alone ----------

  /** Unless a size or the length is negative, the body is that of the stream, however it is fragmented. */
  lemma GotIsResponse(f: Fragments)
    requires !Response(Flatten(f)).Negative?
    ensures Got(f) == Response(Flatten(f))
  {
    UntilAgrees(f, BLANK);
    var k := Remainder(f);
    match ReadHead(Until(Opened(f).buf, BLANK)) {
      case Head(true, _) => LoopIsDecode(k);
      case Head(false, Octets(n)) => CountAgrees(k, n);
      case _ =>
    }
  }

  /** What a server writes: status line, fields, blank line, body. */
  function Served(status: seq<byte>, fields: seq<Field>, body: seq<byte>): seq<byte> {
    JoinLines([status] + FieldLines(fields)) + (BLANK + body)
  }

  predicate GoodHead(status: seq<byte>, fields: seq<Field>) {
    && status != [] && CR !in status && Number(SecondField(status)).Some?
    && forall i :: 0 <= i < |fields| ==> fields[i].Plain()
  }

  lemma ServedHead(status: seq<byte>, fields: seq<Field>, body: seq<byte>)
    requires GoodHead(status, fields)
    ensures Beyond(Served(status, fields, body), BLANK) == body
    ensures ReadHead(Until(Served(status, fields, body), BLANK)) == Announced(fields)
  {
    var lines := [status] + FieldLines(fields);
    forall i | 0 <= i < |lines|
      ensures lines[i] != [] && CR !in lines[i]
    {
      if i > 0 { assert lines[i] == FieldLine(fields[i - 1]); }
    }
    HeadCuts(lines, body);
    LinesOfJoin(lines);
    ServedFields(status, fields);
  }

  /** What the fields say about the framing, by their last values. */
  function Announced(fields: seq<Field>): Head {
    var encoding, length := LastValue(fields, TRANSFER_ENCODING), LastValue(fields, CONTENT_LENGTH);
    Head(encoding.Some? && Lowered(encoding.value) == CHUNKED,
         if length.None? then Absent else if Number(length.value).None? then NotANumber else Octets(Number(length.value).value))
  }

  lemma ServedFields(status: seq<byte>, fields: seq<Field>)
    requires GoodHead(status, fields)
    ensures HeadOf([status] + FieldLines(fields)) == Announced(fields)
  {
    assert ([status] + FieldLines(fields))[1..] == FieldLines(fields);
    FieldsRead(fields, TRANSFER_ENCODING);
    FieldsRead(fields, CONTENT_LENGTH);
  }

  /** Server to client, chunked: whatever the other fields, the fragments and what follows the last
      chunk, the client gets the pieces up to the first empty one, even beside a content length. */
  lemma ServedChunked(status: seq<byte>, fields: seq<Field>, pieces: seq<seq<byte>>, extra: seq<byte>, f: Fragments)
    requires GoodHead(status, fields) && Announced(fields).chunked
    requires Flatten(f) == Served(status, fields, Write(pieces) + extra)
    ensures Got(f) == Body(Joined(pieces))
  {
    ServedHead(status, fields, Write(pieces) + extra);
    DecodeUndoesWrite(pieces, extra);
    GotIsResponse(f);
  }

  /** Server to client, with a content length. */
  lemma ServedLength(status: seq<byte>, fields: seq<Field>, body: seq<byte>, extra: seq<byte>, f: Fragments)
    requires GoodHead(status, fields) && Announced(fields) == Head(false, Octets(|body|))
    requires Flatten(f) == Served(status, fields, body + extra)
    ensures Got(f) == Body(body)
  {
    ServedHead(status, fields, body + extra);
    assert Take(body + extra, |body|) == body;
    GotIsResponse(f);
  }

  // ---------- a negative length ----------

  ghost predicate FragmentsMatter(s: seq<byte>) {
    exists f: Fragments, g: Fragments ::
      Deliverable(f) && Deliverable(g) && Flatten(f) == s && Flatten(g) == s && Got(f) != Got(g)
  }

  /** At most one fragment, less a byte, arrives beyond the marker. */
  lemma {:induction false} Overshoot(f: Feed, marker: seq<byte>)
    requires Deliverable(f.fragments) && Find(f.All(), marker) >= 0 && |f.buf| < Find(f.All(), marker) + |marker|
    ensures |FillUntil(f, marker).buf| < Find(f.All(), marker) + |marker| + RECV_SIZE
    decreases |f.fragments|
  {
    var s := f.All();
    assert s[..|f.buf|] == f.buf;
    NotYet(s, marker, |f.buf|);
    if f.fragments != [] {
      Shifted(f.buf, f.fragments);
      var next := Feed(f.buf + f.fragments[0], f.fragments[1..]);
      if |next.buf| < Find(s, marker) + |marker| {
        Overshoot(next, marker);
      } else {
        FindEarly(s, marker, |next.buf|);
        assert s[..|next.buf|] == next.buf;
      }
    }
  }

  /** The stream byte by byte, but for one fragment that holds the marker's last byte and p bytes more. */
  function Late(s: seq<byte>, e: nat, p: nat): Fragments
    requires 0 < e && e + p <= |s|
  {
    Singles(s[..e - 1]) + ([s[e - 1..e + p]] + Singles(s[e + p..]))
  }

  lemma LateDelivers(s: seq<byte>, e: nat, p: nat)
    requires 0 < e && e + p <= |s| && p < RECV_SIZE
    ensures Deliverable(Late(s, e, p)) && Flatten(Late(s, e, p)) == s
  {
    var a, b, c := Singles(s[..e - 1]), [s[e - 1..e + p]], Singles(s[e + p..]);
    FlattenConcat(a, b + c);
    FlattenConcat(b, c);
    FlattenSingles(s[..e - 1]);
    FlattenSingles(s[e + p..]);
    assert b[1..] == [];
    assert s[..e - 1] + (s[e - 1..e + p] + s[e + p..]) == s;
  }

  /** A negative length -k leaves of the p bytes that came with the head all but the last k. */
  lemma NegativeGot(f: Fragments, k: int)
    requires k >= 1 && ReadHead(Until(Flatten(f), BLANK)) == Head(false, Octets(-k))
    ensures Got(f) == Body(SliceTo(Beyond(Opened(f).buf, BLANK), -k))
  {
    UntilAgrees(f, BLANK);
    NoFill(Remainder(f), -k);
  }

  lemma NoFill(k: Feed, n: int)
    requires n <= 0
    ensures FillTo(k, n) == k
  {
  }

  lemma PrefetchedLength(f: Fragments)
    requires Deliverable(f)
    ensures |Beyond(Opened(f).buf, BLANK)| < RECV_SIZE && |Beyond(Opened(f).buf, BLANK)| <= |Beyond(Flatten(f), BLANK)|
  {
    UntilAgrees(f, BLANK);
    var start := Feed([], f);
    assert start.All() == Flatten(f);
    FilledUntil(start, BLANK);
    var g := Opened(f);
    if Find(g.buf, BLANK) >= 0 {
      FindStable(g.buf, Flatten(g.fragments), BLANK);
      Overshoot(start, BLANK);
    }
  }

  lemma LateFills(s: seq<byte>, marker: seq<byte>, e: nat, p: nat)
    requires Find(s, marker) >= 0 && 0 < e == Find(s, marker) + |marker| && e + p <= |s|
    ensures FillUntil(Feed([], Late(s, e, p)), marker) == Feed(s[..e + p], Singles(s[e + p..]))
  {
    LateStart(s, e);
    LateChain(s, marker, 0, e, e + p, Singles(s[e + p..]));
  }

  lemma LateStart(s: seq<byte>, e: nat)
    requires 0 < e <= |s|
    ensures s[..0] == [] && s[0..e - 1] == s[..e - 1]
  {
  }

  lemma LateBeyond(s: seq<byte>, marker: seq<byte>, e: nat, p: nat)
    requires Find(s, marker) >= 0 && 0 < e == Find(s, marker) + |marker| && e + p <= |s|
    ensures p <= |Beyond(s, marker)|
    ensures Beyond(FillUntil(Feed([], Late(s, e, p)), marker).buf, marker) == Beyond(s, marker)[..p]
  {
    LateFills(s, marker, e, p);
    LateCut(s, marker, e, p);
  }

  /** Where the head ends. */
  function HeadEnd(s: seq<byte>): nat
    requires Find(s, BLANK) >= 0
  {
    Find(s, BLANK) + |BLANK|
  }

  lemma LateOpens(s: seq<byte>, p: nat)
    requires Find(s, BLANK) >= 0 && HeadEnd(s) + p <= |s|
    ensures p <= |Beyond(s, BLANK)| && Beyond(Opened(Late(s, HeadEnd(s), p)).buf, BLANK) == Beyond(s, BLANK)[..p]
  {
    LateBeyond(s, BLANK, HeadEnd(s), p);
  }

  /** A delivery with p bytes prefetched, and what it returns. */
  lemma LateGot(s: seq<byte>, k: int, p: nat) returns (f: Fragments)
    requires k >= 1 && ReadHead(Until(s, BLANK)) == Head(false, Octets(-k)) && Find(s, BLANK) >= 0
    requires p < RECV_SIZE && HeadEnd(s) + p <= |s|
    ensures Deliverable(f) && Flatten(f) == s
    ensures p <= |Beyond(s, BLANK)| && Got(f) == Body(SliceTo(Beyond(s, BLANK)[..p], -k))
  {
    f := Late(s, HeadEnd(s), p);
    LateDelivers(s, HeadEnd(s), p);
    LateOpens(s, p);
    NegativeGot(f, k);
  }

  lemma SomeFragmentsDiffer(s: seq<byte>, k: int)
    requires k >= 1 && ReadHead(Until(s, BLANK)) == Head(false, Octets(-k))
    requires |Beyond(s, BLANK)| > k && k + 1 < RECV_SIZE
    ensures FragmentsMatter(s)
  {
    var tail := Beyond(s, BLANK);
    var f := LateGot(s, k, 0);
    var g := LateGot(s, k, k + 1);
    assert |SliceTo(tail[..0], -k)| == 0 && |SliceTo(tail[..k + 1], -k)| == 1;
  }

  lemma NothingShows(f: Fragments, k: int)
    requires k >= 1 && ReadHead(Until(Flatten(f), BLANK)) == Head(false, Octets(-k)) && Deliverable(f)
    requires |Beyond(Flatten(f), BLANK)| <= k || k + 1 >= RECV_SIZE
    ensures Got(f) == Body([])
  {
    NegativeGot(f, k);
    PrefetchedLength(f);
  }

  /** With a content length of -k the fragments matter exactly when more than k bytes follow the head and
      more than k of them fit into the fragment that completes it. */
  lemma NegativeLengthMatters(s: seq<byte>, k: int)
    requires k >= 1 && ReadHead(Until(s, BLANK)) == Head(false, Octets(-k))
    ensures FragmentsMatter(s) <==> |Beyond(s, BLANK)| > k && k + 1 < 4096
  {
    if |Beyond(s, BLANK)| > k && k + 1 < RECV_SIZE {
      SomeFragmentsDiffer(s, k);
    } else {
      forall f: Fragments | Deliverable(f) && Flatten(f) == s
        ensures Got(f) == Body([])
      {
        NothingShows(f, k);
      }
    }
  }
}
