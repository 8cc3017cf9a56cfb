/**
  The receive loops of os_net/comp_networking/examples/http_client.py. The socket is an adversary:
  it hands out the stream in any fragments it likes, and then end-of-file.
*/
module HttpClient {
  import opened Bytes
  import opened Chunked
  import opened Sequences
  import opened Wrappers

  const RECV_SIZE: nat := 4096

  /** The fragments still to come, each what one `recv(4096)` returns. */
  type Fragments = seq<seq<byte>>

  predicate Deliverable(f: Fragments) { forall i :: 0 <= i < |f| ==> 0 < |f[i]| <= RECV_SIZE }

  function Flatten(f: Fragments): seq<byte> {
    if f == [] then [] else f[0] + Flatten(f[1..])
  }

  class Socket {
    var fragments: Fragments

    constructor (fragments: Fragments)
      ensures this.fragments == fragments
    {
      this.fragments := fragments;
    }

    /** `sock.recv(4096)`; empty at end-of-file only. */
    method Recv() returns (chunk: seq<byte>)
      requires Deliverable(fragments)
      modifies this
      ensures Deliverable(fragments) && |chunk| <= RECV_SIZE
      ensures chunk == [] <==> old(fragments) == []
      ensures old(fragments) == [] ==> fragments == []
      ensures old(fragments) != [] ==> chunk == old(fragments)[0] && fragments == old(fragments)[1..]
    {
      if fragments == [] {
        return [];
      }
      chunk := fragments[0];
      fragments := fragments[1..];
    }
  }

  // ---------- what the loops do to a buffer and the fragments behind it ----------

  datatype Feed = Feed(buf: seq<byte>, fragments: Fragments) {
    /** Everything not yet consumed. */
    function All(): seq<byte> { buf + Flatten(fragments) }
  }

  /** Receive until the marker is in the buffer or the stream ends. */
  function FillUntil(f: Feed, marker: seq<byte>): (r: Feed)
    decreases |f.fragments|
  {
    if Find(f.buf, marker) >= 0 || f.fragments == [] then f
    else FillUntil(Feed(f.buf + f.fragments[0], f.fragments[1..]), marker)
  }

  /** Receive until the buffer holds n bytes or the stream ends. */
  function FillTo(f: Feed, n: int): (r: Feed)
    decreases |f.fragments|
  {
    if |f.buf| >= n || f.fragments == [] then f
    else FillTo(Feed(f.buf + f.fragments[0], f.fragments[1..]), n)
  }

  lemma Shifted(buf: seq<byte>, f: Fragments)
    requires f != []
    ensures (buf + f[0]) + Flatten(f[1..]) == buf + Flatten(f)
  {
  }

  lemma {:induction false} FilledUntil(f: Feed, marker: seq<byte>)
    ensures FillUntil(f, marker).All() == f.All()
    ensures Find(FillUntil(f, marker).buf, marker) >= 0 || FillUntil(f, marker).fragments == []
    decreases |f.fragments|
  {
    if Find(f.buf, marker) < 0 && f.fragments != [] {
      Shifted(f.buf, f.fragments);
      FilledUntil(Feed(f.buf + f.fragments[0], f.fragments[1..]), marker);
    }
  }

  lemma {:induction false} FilledTo(f: Feed, n: int)
    ensures FillTo(f, n).All() == f.All()
    ensures |FillTo(f, n).buf| >= n || FillTo(f, n).fragments == []
    decreases |f.fragments|
  {
    if |f.buf| < n && f.fragments != [] {
      Shifted(f.buf, f.fragments);
      FilledTo(Feed(f.buf + f.fragments[0], f.fragments[1..]), n);
    }
  }

  /** `b[:k]` and `b[k:]`, where a negative k counts from the end. */
  function SliceTo(b: seq<byte>, k: int): seq<byte> {
    if k >= 0 then Take(b, k) else if |b| + k >= 0 then b[..|b| + k] else []
  }

  function SliceFrom(b: seq<byte>, k: int): (r: seq<byte>)
    ensures |r| <= |b|
  {
    if k >= 0 then Drop(b, k) else if |b| + k >= 0 then b[|b| + k..] else b
  }

  /** One turn of the chunk loop: a size that is no number, the last chunk, or data and what is left. */
  datatype Turn = Bad | Last | Data(data: seq<byte>, next: Feed)

  /** The turn, once the size line is in the buffer. */
  function Sized(g: Feed): Turn {
    var size := Size(Line(g.buf));
    if size.None? then Bad
    else if size.value == 0 then Last
    else Cut(Feed(Rest(g.buf), g.fragments), size.value)
  }

  /** Behind the size line: wait for the chunk, take it, and skip two bytes more. */
  function Cut(k: Feed, size: int): (t: Turn)
    ensures t.Data?
  {
    var h := FillTo(k, size + 2);
    Data(SliceTo(h.buf, size), Feed(SliceFrom(h.buf, size + 2), h.fragments))
  }

  lemma SizedShrinks(g: Feed)
    ensures Sized(g).Data? ==> |Sized(g).next.All()| < |g.All()|
  {
    if Sized(g).Data? {
      FilledTo(Feed(Rest(g.buf), g.fragments), Size(Line(g.buf)).value + 2);
    }
  }

  function Turned(f: Feed): (t: Turn)
    ensures t.Data? ==> |t.next.All()| < |f.All()|
  {
    FilledUntil(f, CRLF);
    SizedShrinks(FillUntil(f, CRLF));
    Sized(FillUntil(f, CRLF))
  }

  /** What `_decode_chunked` computes from a buffer and the fragments behind it. */
  function Loop(f: Feed): Outcome
    decreases |f.All()|
  {
    match Turned(f)
    case Bad => ValueError
    case Last => Body([])
    case Data(data, next) => Then(data, Loop(next))
  }

  // ---------- the loops ----------

  /** `fill_until`, the loop of `_read_until`. */
  method Fill(sock: Socket, start: seq<byte>, marker: seq<byte>) returns (buf: seq<byte>)
    requires Deliverable(sock.fragments)
    modifies sock
    ensures Deliverable(sock.fragments)
    ensures Feed(buf, sock.fragments) == FillUntil(Feed(start, old(sock.fragments)), marker)
  {
    buf := start;
    while Find(buf, marker) < 0
      invariant Deliverable(sock.fragments)
      invariant FillUntil(Feed(buf, sock.fragments), marker) == FillUntil(Feed(start, old(sock.fragments)), marker)
      decreases |sock.fragments|
    {
      var chunk := sock.Recv();
      if chunk == [] {
        break;
      }
      buf := buf + chunk;
    }
  }

  /** The loop that waits for a chunk's data, and that of `_recv_exactly`. */
  method FillCount(sock: Socket, start: seq<byte>, n: int) returns (buf: seq<byte>)
    requires Deliverable(sock.fragments)
    modifies sock
    ensures Deliverable(sock.fragments)
    ensures Feed(buf, sock.fragments) == FillTo(Feed(start, old(sock.fragments)), n)
  {
    buf := start;
    while |buf| < n
      invariant Deliverable(sock.fragments)
      invariant FillTo(Feed(buf, sock.fragments), n) == FillTo(Feed(start, old(sock.fragments)), n)
      decreases |sock.fragments|
    {
      var chunk := sock.Recv();
      if chunk == [] {
        break;
      }
      buf := buf + chunk;
    }
  }

  /** A chunk read after its size line: the buffer's front and the rest. */
  method TakeChunk(sock: Socket, start: seq<byte>, size: int) returns (data: seq<byte>, buf: seq<byte>)
    requires Deliverable(sock.fragments)
    modifies sock
    ensures Deliverable(sock.fragments)
    ensures var h := FillTo(Feed(start, old(sock.fragments)), size + 2);
            data == SliceTo(h.buf, size) && buf == SliceFrom(h.buf, size + 2) && sock.fragments == h.fragments
  {
    buf := FillCount(sock, start, size + 2);
    data := SliceTo(buf, size);
    buf := SliceFrom(buf, size + 2);
  }

  /** One turn of the chunk loop. */
  method TakeTurn(sock: Socket, start: seq<byte>) returns (t: Turn)
    requires Deliverable(sock.fragments)
    modifies sock
    ensures Deliverable(sock.fragments)
    ensures t == Turned(Feed(start, old(sock.fragments)))
    ensures t.Data? ==> t.next.fragments == sock.fragments
  {
    var buf := Fill(sock, start, CRLF);
    var line, rest := Line(buf), Rest(buf);
    var size := Size(line);
    if size.None? {
      return Bad;
    }
    if size.value == 0 {
      var trailer := Fill(sock, rest, CRLF);
      return Last;
    }
    var data;
    data, buf := TakeChunk(sock, rest, size.value);
    return Data(data, Feed(buf, sock.fragments));
  }

  /** `_decode_chunked` */
  method DecodeChunked(sock: Socket, prefetched: seq<byte>) returns (r: Outcome)
    requires Deliverable(sock.fragments)
    modifies sock
    ensures r == Loop(Feed(prefetched, old(sock.fragments)))
  {
    var body, buf := [], prefetched;
    ghost var now := Feed(buf, sock.fragments);
    ThenNone(Loop(now));
    while true
      invariant Deliverable(sock.fragments) && now == Feed(buf, sock.fragments)
      invariant Then(body, Loop(now)) == Loop(Feed(prefetched, old(sock.fragments)))
      decreases |now.All()|
    {
      var turn := TakeTurn(sock, buf);
      match turn {
        case Bad =>
          return ValueError;
        case Last =>
          Finish(body, now);
          return Body(body);
        case Data(data, next) =>
          Continue(body, now, data, next);
          body, buf, now := body + data, next.buf, next;
      }
    }
  }

  lemma Finish(body: seq<byte>, now: Feed)
    requires Turned(now) == Last
    ensures Then(body, Loop(now)) == Body(body)
  {
    assert body + [] == body;
  }

  lemma Continue(body: seq<byte>, now: Feed, data: seq<byte>, next: Feed)
    requires Turned(now) == Data(data, next)
    ensures Then(body, Loop(now)) == Then(body + data, Loop(next)) && |next.All()| < |now.All()|
  {
    ThenTwice(body, data, Loop(next));
  }

  lemma ThenNone(r: Outcome)
    ensures Then([], r) == r
  {
    if r.Body? { assert [] + r.bytes == r.bytes; }
  }

  lemma ThenTwice(a: seq<byte>, b: seq<byte>, r: Outcome)
    ensures Then(a, Then(b, r)) == Then(a + b, r)
  {
    if r.Body? { assert a + (b + r.bytes) == (a + b) + r.bytes; }
  }

  // ---------- fragmentation does not matter ----------

  lemma CutsAgree(buf: seq<byte>, more: seq<byte>, i: nat, width: nat)
    requires i + width <= |buf|
    ensures Before(buf, i) == Before(buf + more, i) && After(buf, i, width) + more == After(buf + more, i, width)
  {
  }

  lemma NothingMore(buf: seq<byte>)
    ensures buf + [] == buf
  {
  }

  predicate Filled(g: Feed, marker: seq<byte>) { Find(g.buf, marker) >= 0 || g.fragments == [] }

  /** With the marker in the buffer, or no more to come, the buffer splits as the whole stream would. */
  lemma SplitAgrees(g: Feed, marker: seq<byte>)
    requires Filled(g, marker)
    ensures Until(g.buf, marker) == Until(g.All(), marker)
    ensures Beyond(g.buf, marker) + Flatten(g.fragments) == Beyond(g.All(), marker)
  {
    if Find(g.buf, marker) >= 0 {
      FindStable(g.buf, Flatten(g.fragments), marker);
      CutsAgree(g.buf, Flatten(g.fragments), Find(g.buf, marker), |marker|);
    } else {
      NothingMore(g.buf);
      NothingMore(Beyond(g.buf, marker));
    }
  }

  lemma CutAgrees(buf: seq<byte>, more: seq<byte>, n: nat)
    requires |buf| >= n + 2 || more == []
    ensures SliceTo(buf, n) == Take(buf + more, n)
    ensures SliceFrom(buf, n + 2) + more == Drop(buf + more, n + 2)
  {
    if more == [] { assert buf + more == buf; }
  }

  /** What `Decode` makes of a turn. */
  function Decoded(t: Turn): Outcome {
    match t
    case Bad => ValueError
    case Last => Body([])
    case Data(data, next) => Then(data, Decode(next.All()))
  }

  lemma ChunkAgrees(k: Feed, n: nat)
    ensures var h := FillTo(k, n + 2);
            SliceTo(h.buf, n) == Take(k.All(), n)
            && Feed(SliceFrom(h.buf, n + 2), h.fragments).All() == Drop(k.All(), n + 2)
  {
    FilledTo(k, n + 2);
    var h := FillTo(k, n + 2);
    CutAgrees(h.buf, Flatten(h.fragments), n);
  }

  lemma SizedAgrees(g: Feed)
    requires Filled(g, CRLF) && !Decode(g.All()).Negative?
    ensures Decode(g.All()) == Decoded(Sized(g))
  {
    SplitAgrees(g, CRLF);
    var size := Size(Line(g.buf));
    if size.Some? && size.value > 0 {
      ChunkAgrees(Feed(Rest(g.buf), g.fragments), size.value);
    }
  }

  lemma TurnAgrees(f: Feed)
    requires !Decode(f.All()).Negative?
    ensures Decode(f.All()) == Decoded(Turned(f))
  {
    FilledUntil(f, CRLF);
    SizedAgrees(FillUntil(f, CRLF));
  }

  /** A chunk that decodes leaves a stream that decodes. */
  lemma NextNotNegative(f: Feed)
    requires !Decode(f.All()).Negative? && Turned(f).Data?
    ensures !Decode(Turned(f).next.All()).Negative?
  {
    TurnAgrees(f);
  }

  /** For every stream whose sizes are not negative, the decoded body is that of the stream,
      however the socket fragments it and however much was prefetched. Truncated and malformed
      streams included. */
  lemma {:induction false} LoopIsDecode(f: Feed)
    requires !Decode(f.All()).Negative?
    ensures Loop(f) == Decode(f.All())
    decreases |f.All()|
  {
    TurnAgrees(f);
    if Turned(f).Data? {
      NextNotNegative(f);
      LoopIsDecode(Turned(f).next);
    }
  }

  /** Two ways to deliver one stream give one body. */
  lemma FragmentationIrrelevant(f: Feed, g: Feed)
    requires f.All() == g.All() && !Decode(f.All()).Negative?
    ensures Loop(f) == Loop(g)
  {
    LoopIsDecode(f);
    LoopIsDecode(g);
  }

  /** What the demo server writes, in any fragments, with any prefix prefetched, is what the client
      gets: the pieces up to the first empty one. */
  lemma ServerToClient(pieces: seq<seq<byte>>, extra: seq<byte>, f: Feed)
    requires f.All() == Write(pieces) + extra
    ensures Loop(f) == Body(Joined(pieces))
  {
    DecodeUndoesWrite(pieces, extra);
    LoopIsDecode(f);
  }
}
