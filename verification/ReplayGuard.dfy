/**
  `RequestSigner` and `SignatureVerifier` of os_net/comp_networking/examples/token_bucket_ratelimiter.py.
  Upper-casing, the SHA-256 digest in hex and HMAC are uninterpreted functions.
*/
module ReplayGuard {
  import opened Strings

  type Nonce = string

  /** What the signature covers besides the timestamp and the nonce. */
  datatype Message = Message(verb: string, path: string, body: seq<int>)

  datatype Headers = Headers(timestamp: int, nonce: Nonce, signature: string)

  datatype Config = Config(upper: string -> string, digest: seq<int> -> string, hmac: string -> string,
                           maxSkew: int, nonceTtl: int)

  datatype Verdict = Ok | StaleTimestamp | BadSignature | ReplayedNonce

  /** Nonce to expiry time. */
  type Seen = map<Nonce, int>

  const NEWLINE: char := '\n'

  function Parts(c: Config, m: Message, timestamp: int, nonce: Nonce): seq<string> {
    [c.upper(m.verb), m.path, Str(timestamp), nonce, c.digest(m.body)]
  }

  /** `_canonical` */
  function Canonical(c: Config, m: Message, timestamp: int, nonce: Nonce): string {
    Join(Parts(c, m, timestamp, nonce), NEWLINE)
  }

  function Mac(c: Config, m: Message, timestamp: int, nonce: Nonce): string { c.hmac(Canonical(c, m, timestamp, nonce)) }

  /** `RequestSigner.sign` */
  function Sign(c: Config, m: Message, timestamp: int, nonce: Nonce): Headers {
    Headers(timestamp, nonce, Mac(c, m, timestamp, nonce))
  }

  /** `_gc`: only what expires after now stays. */
  function Live(seen: Seen, now: int): Seen { map n | n in seen && seen[n] > now :: seen[n] }

  predicate Timely(c: Config, h: Headers, now: int) { -c.maxSkew <= now - h.timestamp <= c.maxSkew }

  predicate Genuine(c: Config, m: Message, h: Headers) { h.signature == Mac(c, m, h.timestamp, h.nonce) }

  function Judge(c: Config, seen: Seen, m: Message, h: Headers, now: int): Verdict {
    if !Timely(c, h, now) then StaleTimestamp
    else if !Genuine(c, m, h) then BadSignature
    else if h.nonce in Live(seen, now) then ReplayedNonce
    else Ok
  }

  function Next(c: Config, seen: Seen, m: Message, h: Headers, now: int): Seen {
    match Judge(c, seen, m, h, now)
    case Ok => Live(seen, now)[h.nonce := now + c.nonceTtl]
    case ReplayedNonce => Live(seen, now)
    case _ => seen
  }

  // ---------- runs ----------

  datatype Request = Request(message: Message, headers: Headers, now: int)

  /** The store after a run. */
  function After(c: Config, run: seq<Request>): Seen {
    if run == [] then map[]
    else
      var r := run[|run| - 1];
      Next(c, After(c, run[..|run| - 1]), r.message, r.headers, r.now)
  }

  predicate Accepts(c: Config, run: seq<Request>, i: nat) {
    i < |run| && Judge(c, After(c, run[..i]), run[i].message, run[i].headers, run[i].now) == Ok
  }

  predicate Ordered(run: seq<Request>) { forall i, j :: 0 <= i < j < |run| ==> run[i].now <= run[j].now }

  lemma AfterNext(c: Config, run: seq<Request>, k: nat)
    requires k < |run|
    ensures After(c, run[..k + 1]) == Next(c, After(c, run[..k]), run[k].message, run[k].headers, run[k].now)
  {
    assert run[..k + 1][..k] == run[..k];
  }

  /** An accepted nonce is remembered, garbage collection and other requests notwithstanding, until its
      time to live is over. */
  lemma {:induction false} Remembered(c: Config, run: seq<Request>, i: nat, j: nat, nonce: Nonce)
    requires Ordered(run) && Accepts(c, run, i) && i < j <= |run| && nonce == run[i].headers.nonce
    requires j > i + 1 ==> run[j - 1].now < run[i].now + c.nonceTtl
    ensures nonce in After(c, run[..j]) && After(c, run[..j])[nonce] == run[i].now + c.nonceTtl
    decreases j
  {
    AfterNext(c, run, j - 1);
    if j > i + 1 {
      Remembered(c, run, i, j - 1, nonce);
    }
  }

  /** A nonce accepted once is not accepted again within its time to live. */
  lemma NotWithinTtl(c: Config, run: seq<Request>, i: nat, j: nat)
    requires Ordered(run) && Accepts(c, run, i) && Accepts(c, run, j) && i < j
    requires run[i].headers.nonce == run[j].headers.nonce
    ensures run[j].now >= run[i].now + c.nonceTtl
  {
    if run[j].now < run[i].now + c.nonceTtl {
      Remembered(c, run, i, j, run[i].headers.nonce);
    }
  }

  predicate Alike(r: Request, s: Request) {
    r.headers.timestamp == s.headers.timestamp && r.headers.nonce == s.headers.nonce
  }

  /** Some run accepts one timestamp and nonce twice. */
  ghost predicate Replayable(c: Config) {
    exists run: seq<Request>, i: nat, j: nat ::
      Ordered(run) && i < j && Accepts(c, run, i) && Accepts(c, run, j) && Alike(run[i], run[j])
  }

  lemma NoReplay(c: Config, run: seq<Request>, i: nat, j: nat)
    requires c.nonceTtl > 2 * c.maxSkew
    requires Ordered(run) && i < j && Accepts(c, run, i) && Accepts(c, run, j)
    ensures !Alike(run[i], run[j])
  {
    if run[i].headers.nonce == run[j].headers.nonce {
      NotWithinTtl(c, run, i, j);
    }
  }

  /** One request, sent early and again at the latest moment. */
  function Twice(c: Config, m: Message, nonce: Nonce): seq<Request> {
    var h := Sign(c, m, c.maxSkew, nonce);
    [Request(m, h, 0), Request(m, h, 2 * c.maxSkew)]
  }

  lemma TwiceAccepted(c: Config, m: Message, nonce: Nonce)
    requires 0 <= c.maxSkew && c.nonceTtl <= 2 * c.maxSkew
    ensures Ordered(Twice(c, m, nonce)) && Accepts(c, Twice(c, m, nonce), 0) && Accepts(c, Twice(c, m, nonce), 1)
  {
    var run := Twice(c, m, nonce);
    assert run[..0] == [];
    AfterNext(c, run, 0);
    assert Live(map[], 0) == map[];
    assert After(c, run[..1]) == map[nonce := c.nonceTtl];
  }

  /** Replay is prevented exactly when the time to live exceeds twice the skew (or nothing is ever timely). */
  lemma ReplayableIff(c: Config)
    ensures Replayable(c) <==> 0 <= c.maxSkew && c.nonceTtl <= 2 * c.maxSkew
  {
    if 0 <= c.maxSkew && c.nonceTtl <= 2 * c.maxSkew {
      var m := Message("GET", "/", []);
      TwiceAccepted(c, m, "n");
      var run := Twice(c, m, "n");
      assert Accepts(c, run, 0) && Accepts(c, run, 1) && Alike(run[0], run[1]);
    } else {
      forall run: seq<Request>, i: nat, j: nat | Ordered(run) && i < j && Accepts(c, run, i) && Accepts(c, run, j)
        ensures !Alike(run[i], run[j])
      {
        NoReplay(c, run, i, j);
      }
    }
  }

  /** The five lines that are signed. */
  function SignedText(verb: string, path: string, timestamp: int, nonce: Nonce, digest: string): string {
    verb + "\n" + path + "\n" + Str(timestamp) + "\n" + nonce + "\n" + digest
  }

  lemma MacIs(c: Config, m: Message, t: int, n: Nonce)
    ensures Mac(c, m, t, n) == c.hmac(SignedText(c.upper(m.verb), m.path, t, n, c.digest(m.body)))
  {
    var v, d := c.upper(m.verb), c.digest(m.body);
    JoinFive(v, m.path, Str(t), n, d, NEWLINE);
    Flattened(v, m.path, Str(t), n, d, "\n");
  }

  lemma Flattened(v: string, p: string, t: string, n: string, d: string, sep: string)
    ensures v + sep + (p + sep + (t + sep + (n + sep + d))) == v + sep + p + sep + t + sep + n + sep + d
  {
  }

  /** The verdict in terms of the clock, the signature and the store. */
  lemma VerdictIs(c: Config, seen: Seen, m: Message, h: Headers, now: int)
    ensures var v := Judge(c, seen, m, h, now);
            var inTime := h.timestamp - c.maxSkew <= now <= h.timestamp + c.maxSkew;
            var signed := h.signature == c.hmac(SignedText(c.upper(m.verb), m.path, h.timestamp, h.nonce, c.digest(m.body)));
            var live := h.nonce in seen && seen[h.nonce] > now;
            && (v == StaleTimestamp <==> !inTime)
            && (v == BadSignature <==> inTime && !signed)
            && (v == ReplayedNonce <==> inTime && signed && live)
            && (v == Ok <==> inTime && signed && !live)
  {
    MacIs(c, m, h.timestamp, h.nonce);
  }

  /** In any run whatever is accepted carries the HMAC of its five lines and is within the skew. */
  lemma AcceptedWasSigned(c: Config, run: seq<Request>, i: nat)
    requires Accepts(c, run, i)
    ensures var m, h := run[i].message, run[i].headers;
            && h.signature == c.hmac(c.upper(m.verb) + "\n" + m.path + "\n" + Str(h.timestamp) + "\n" + h.nonce + "\n" + c.digest(m.body))
            && h.timestamp - c.maxSkew <= run[i].now <= h.timestamp + c.maxSkew
  {
    VerdictIs(c, After(c, run[..i]), run[i].message, run[i].headers, run[i].now);
  }

  /** The requests that pass the first two checks. */
  function Proper(c: Config, run: seq<Request>): seq<Request> {
    if run == [] then []
    else
      var r := run[|run| - 1];
      Proper(c, run[..|run| - 1]) + if Timely(c, r.headers, r.now) && Genuine(c, r.message, r.headers) then [r] else []
  }

  /** Stale and forged requests, however many and wherever, never consume or keep a nonce. */
  lemma {:induction false} ForgeriesLeaveNoTrace(c: Config, run: seq<Request>)
    ensures After(c, Proper(c, run)) == After(c, run)
  {
    if run != [] {
      var r, before := run[|run| - 1], Proper(c, run[..|run| - 1]);
      ForgeriesLeaveNoTrace(c, run[..|run| - 1]);
      assert (before + [r])[..|before|] == before;
      assert before + [] == before;
    }
  }

  /** Whatever is in the store came from an accepted request. */
  lemma {:induction false} Provenance(c: Config, run: seq<Request>, nonce: Nonce)
    requires nonce in After(c, run)
    ensures exists i: nat :: Accepts(c, run, i) && run[i].headers.nonce == nonce
                             && After(c, run)[nonce] == run[i].now + c.nonceTtl
  {
    var k := |run| - 1;
    var before := run[..k];
    if nonce in After(c, before) && After(c, run)[nonce] == After(c, before)[nonce] {
      Provenance(c, before, nonce);
      var i: nat :| Accepts(c, before, i) && before[i].headers.nonce == nonce
                    && After(c, before)[nonce] == before[i].now + c.nonceTtl;
      assert before[..i] == run[..i];
      assert Accepts(c, run, i);
    } else {
      assert Accepts(c, run, k);
    }
  }

  /** A timely signed request is accepted exactly when every earlier request accepted with its nonce is a
      time to live ago. */
  lemma AcceptedIffFresh(c: Config, run: seq<Request>, m: Message, timestamp: int, nonce: Nonce, now: int)
    requires Ordered(run) && (forall i :: 0 <= i < |run| ==> run[i].now <= now)
    requires -c.maxSkew <= now - timestamp <= c.maxSkew
    ensures Judge(c, After(c, run), m, Sign(c, m, timestamp, nonce), now) == Ok <==>
            forall i: nat :: Accepts(c, run, i) && run[i].headers.nonce == nonce ==> run[i].now + c.nonceTtl <= now
  {
    assert run[..|run|] == run;
    if nonce in After(c, run) && After(c, run)[nonce] > now {
      Provenance(c, run, nonce);
    }
    forall i: nat | Accepts(c, run, i) && run[i].headers.nonce == nonce && run[i].now + c.nonceTtl > now
      ensures nonce in After(c, run) && After(c, run)[nonce] > now
    {
      Remembered(c, run, i, |run|, nonce);
    }
  }

  // ---------- what is signed ----------

  /** Fields that contain no newline. */
  predicate OneLine(c: Config, m: Message, nonce: Nonce) {
    && Without(c.upper(m.verb), NEWLINE) && Without(m.path, NEWLINE) && Without(nonce, NEWLINE)
    && Without(c.digest(m.body), NEWLINE)
  }

  /** Without newlines in the fields the text signed determines them all. */
  lemma CanonicalInjective(c: Config, m: Message, t: int, n: Nonce, m': Message, t': int, n': Nonce)
    requires OneLine(c, m, n) && OneLine(c, m', n') && Canonical(c, m, t, n) == Canonical(c, m', t', n')
    ensures c.upper(m.verb) == c.upper(m'.verb) && m.path == m'.path && t == t' && n == n'
    ensures c.digest(m.body) == c.digest(m'.body)
  {
    StrPlain(t, NEWLINE);
    StrPlain(t', NEWLINE);
    SplitJoin(Parts(c, m, t, n), NEWLINE);
    SplitJoin(Parts(c, m', t', n'), NEWLINE);
    assert Parts(c, m, t, n) == Parts(c, m', t', n');
    assert Parts(c, m, t, n)[2] == Str(t) && Parts(c, m', t', n')[2] == Str(t');
    StrInjective(t, t');
    assert Parts(c, m, t, n)[1] == m.path && Parts(c, m, t, n)[3] == n && Parts(c, m, t, n)[4] == c.digest(m.body);
    assert Parts(c, m, t, n)[0] == c.upper(m.verb);
  }

  lemma JoinFive(a: string, b: string, d: string, e: string, f: string, sep: char)
    ensures Join([a, b, d, e, f], sep) == a + [sep] + (b + [sep] + (d + [sep] + (e + [sep] + f)))
  {
    assert [e, f][1..] == [f];
    assert Join([e, f], sep) == e + [sep] + f;
    assert [d, e, f][1..] == [e, f];
    assert Join([d, e, f], sep) == d + [sep] + Join([e, f], sep);
    assert [b, d, e, f][1..] == [d, e, f];
    assert Join([b, d, e, f], sep) == b + [sep] + Join([d, e, f], sep);
    assert [a, b, d, e, f][1..] == [b, d, e, f];
  }

  /** The part of the text that the path, the timestamp and the nonce make. */
  function Middle(path: string, t: int, nonce: Nonce): string { path + [NEWLINE] + Str(t) + [NEWLINE] + nonce }

  ghost predicate Numeral(line: string) { exists x: int :: line == Str(x) }

  /** A line of the path but its first, or of the nonce but its last, is a numeral. */
  ghost predicate Movable(path: string, nonce: Nonce) {
    || (exists i :: 1 <= i < |Split(path, NEWLINE)| && Numeral(Split(path, NEWLINE)[i]))
    || (exists i :: 0 <= i < |Split(nonce, NEWLINE)| - 1 && Numeral(Split(nonce, NEWLINE)[i]))
  }

  lemma MiddleLines(path: string, t: int, nonce: Nonce)
    ensures Split(Middle(path, t, nonce), NEWLINE) == Split(path, NEWLINE) + [Str(t)] + Split(nonce, NEWLINE)
  {
    SplitConcat(path + [NEWLINE] + Str(t), nonce, NEWLINE);
    SplitConcat(path, Str(t), NEWLINE);
    StrPlain(t, NEWLINE);
    SplitPlain(Str(t), NEWLINE);
  }

  lemma SameCut(p: seq<string>, t: string, n: seq<string>, p': seq<string>, t': string, n': seq<string>)
    requires p + [t] + n == p' + [t'] + n' && |p| == |p'|
    ensures p == p' && t == t' && n == n'
  {
    var l := p + [t] + n;
    assert l[..|p|] == p && l[..|p|] == p' && l[|p|] == t && l[|p|] == t' && l[|p| + 1..] == n && l[|p| + 1..] == n';
  }

  /** Another cut of the same lines needs a numeral elsewhere. */
  lemma OtherCut(path: string, t: int, nonce: Nonce, path': string, t': int, nonce': Nonce)
    requires Middle(path, t, nonce) == Middle(path', t', nonce')
    ensures (path == path' && t == t' && nonce == nonce') || Movable(path, nonce)
  {
    MiddleLines(path, t, nonce);
    MiddleLines(path', t', nonce');
    var p, n, p', n' := Split(path, NEWLINE), Split(nonce, NEWLINE), Split(path', NEWLINE), Split(nonce', NEWLINE);
    var l := p + [Str(t)] + n;
    assert l[|p'|] == Str(t');
    if |p'| == |p| {
      SameCut(p, Str(t), n, p', Str(t'), n');
      StrInjective(t, t');
      JoinSplit(path, NEWLINE);
      JoinSplit(path', NEWLINE);
      JoinSplit(nonce, NEWLINE);
      JoinSplit(nonce', NEWLINE);
    } else if |p'| < |p| {
      assert p[|p'|] == Str(t');
      assert Numeral(p[|p'|]);
    } else {
      var i := |p'| - |p| - 1;
      assert |l| == |p'| + 1 + |n'|;
      assert n[i] == Str(t');
      assert Numeral(n[i]);
    }
  }

  /** Cutting at a numeral of the path. */
  lemma CutPath(path: string, t: int, nonce: Nonce, i: nat, x: int) returns (path': string, nonce': Nonce)
    requires 1 <= i < |Split(path, NEWLINE)| && Split(path, NEWLINE)[i] == Str(x)
    ensures Middle(path', x, nonce') == Middle(path, t, nonce) && path' != path
  {
    var p := Split(path, NEWLINE);
    var more := p[i + 1..] + [Str(t) + [NEWLINE] + nonce];
    path', nonce' := Join(p[..i], NEWLINE), Join(more, NEWLINE);
    PathParts(path, i);
    ShorterJoin(path, path', Join([Str(x)] + p[i + 1..], NEWLINE));
    TailJoin(Str(x), p[i + 1..], Str(t) + [NEWLINE] + nonce);
    Reassociated(path', Join([Str(x)] + p[i + 1..], NEWLINE), Str(t), nonce, Str(x), nonce', [NEWLINE]);
  }

  lemma Reassociated(a: string, b: string, t: string, n: string, x: string, n': string, sep: string)
    requires b + sep + (t + sep + n) == x + sep + n'
    ensures (a + sep + b) + sep + t + sep + n == a + sep + x + sep + n'
  {
    assert (a + sep + b) + sep + t + sep + n == a + sep + (b + sep + (t + sep + n));
    assert a + sep + x + sep + n' == a + sep + (x + sep + n');
  }

  lemma PathParts(path: string, i: nat)
    requires 1 <= i < |Split(path, NEWLINE)|
    ensures var p := Split(path, NEWLINE);
            path == Join(p[..i], NEWLINE) + [NEWLINE] + Join([p[i]] + p[i + 1..], NEWLINE)
  {
    var p := Split(path, NEWLINE);
    JoinSplit(path, NEWLINE);
    assert p == p[..i] + ([p[i]] + p[i + 1..]);
    JoinConcat(p[..i], [p[i]] + p[i + 1..], NEWLINE);
  }

  lemma ShorterJoin(whole: string, front: string, rest: string)
    requires whole == front + [NEWLINE] + rest
    ensures whole != front
  {
    assert |whole| > |front|;
  }

  /** A line, some more and a last one. */
  lemma TailJoin(x: string, lines: seq<string>, last: string)
    ensures Join([x] + lines, NEWLINE) + [NEWLINE] + last == x + [NEWLINE] + Join(lines + [last], NEWLINE)
  {
    JoinConcat([x] + lines, [last], NEWLINE);
    assert ([x] + lines) + [last] == [x] + (lines + [last]);
    JoinConcat([x], lines + [last], NEWLINE);
  }

  /** Cutting at a numeral of the nonce. */
  lemma CutNonce(path: string, t: int, nonce: Nonce, i: nat, x: int) returns (path': string, nonce': Nonce)
    requires i < |Split(nonce, NEWLINE)| - 1 && Split(nonce, NEWLINE)[i] == Str(x)
    ensures Middle(path', x, nonce') == Middle(path, t, nonce) && nonce' != nonce
  {
    var n := Split(nonce, NEWLINE);
    var front := [path + [NEWLINE] + Str(t)] + n[..i];
    path', nonce' := Join(front, NEWLINE), Join(n[i + 1..], NEWLINE);
    JoinSplit(nonce, NEWLINE);
    assert n == (n[..i] + [Str(x)]) + n[i + 1..];
    JoinConcat(n[..i] + [Str(x)], n[i + 1..], NEWLINE);
    HeadJoin(path + [NEWLINE] + Str(t), n[..i], Str(x));
    assert |nonce| > |nonce'|;
  }

  lemma HeadJoin(first: string, lines: seq<string>, x: string)
    ensures Join([first] + lines, NEWLINE) + [NEWLINE] + x == first + [NEWLINE] + Join(lines + [x], NEWLINE)
  {
    TailJoin(first, lines, x);
  }

  lemma CanonicalMiddle(c: Config, m: Message, t: int, n: Nonce)
    ensures Canonical(c, m, t, n) == c.upper(m.verb) + [NEWLINE] + Middle(m.path, t, n) + [NEWLINE] + c.digest(m.body)
  {
    JoinFive(c.upper(m.verb), m.path, Str(t), n, c.digest(m.body), NEWLINE);
    Grouped(c.upper(m.verb), m.path, Str(t), n, c.digest(m.body), [NEWLINE]);
  }

  lemma Grouped(v: string, p: string, t: string, n: string, d: string, sep: string)
    ensures v + sep + (p + sep + (t + sep + (n + sep + d))) == v + sep + (p + sep + t + sep + n) + sep + d
  {
  }

  lemma MiddleCancels(v: string, a: string, b: string, d: string)
    ensures v + [NEWLINE] + a + [NEWLINE] + d == v + [NEWLINE] + b + [NEWLINE] + d <==> a == b
  {
    var x, y := v + [NEWLINE] + a + [NEWLINE] + d, v + [NEWLINE] + b + [NEWLINE] + d;
    if x == y {
      assert |a| == |b|;
      assert a == x[|v| + 1..|v| + 1 + |a|] && b == y[|v| + 1..|v| + 1 + |b|];
    }
  }

  /** No other path, timestamp and nonce give the same text with this verb and body. */
  ghost predicate Unambiguous(c: Config, m: Message, t: int, n: Nonce) {
    forall path: string, t': int, n': Nonce ::
      Canonical(c, m.(path := path), t', n') == Canonical(c, m, t, n) ==> path == m.path && t' == t && n' == n
  }

  /** Exactly when no line of the path but its first, and none of the nonce but its last, is a numeral:
      in particular whenever neither contains a newline. */
  lemma UnambiguousIff(c: Config, m: Message, t: int, n: Nonce)
    ensures Unambiguous(c, m, t, n) <==> !Movable(m.path, n)
  {
    CanonicalMiddle(c, m, t, n);
    forall path: string, t': int, n': Nonce
      ensures Canonical(c, m.(path := path), t', n') == Canonical(c, m, t, n) <==> Middle(path, t', n') == Middle(m.path, t, n)
    {
      CanonicalMiddle(c, m.(path := path), t', n');
      MiddleCancels(c.upper(m.verb), Middle(path, t', n'), Middle(m.path, t, n), c.digest(m.body));
    }
    if Movable(m.path, n) {
      SomeOther(m.path, t, n);
    } else {
      forall path: string, t': int, n': Nonce | Middle(path, t', n') == Middle(m.path, t, n)
        ensures path == m.path && t' == t && n' == n
      {
        OtherCut(m.path, t, n, path, t', n');
      }
    }
  }

  lemma SomeOther(path: string, t: int, n: Nonce)
    requires Movable(path, n)
    ensures exists path': string, t': int, n': Nonce ::
              Middle(path', t', n') == Middle(path, t, n) && !(path' == path && t' == t && n' == n)
  {
    if i :| 1 <= i < |Split(path, NEWLINE)| && Numeral(Split(path, NEWLINE)[i]) {
      var x: int :| Split(path, NEWLINE)[i] == Str(x);
      var path', n' := CutPath(path, t, n, i, x);
    } else {
      var i :| 0 <= i < |Split(n, NEWLINE)| - 1 && Numeral(Split(n, NEWLINE)[i]);
      var x: int :| Split(n, NEWLINE)[i] == Str(x);
      var path', n' := CutNonce(path, t, n, i, x);
    }
  }

  class SignatureVerifier {
    const c: Config
    var seen: Seen

    constructor (c: Config)
      ensures this.c == c && seen == After(c, [])
    {
      this.c := c;
      seen := map[];
    }

    /** `_gc` */
    method CollectGarbage(now: int)
      modifies this
      ensures seen == Live(old(seen), now)
    {
      var expired := set n | n in seen && seen[n] <= now;
      seen := seen - expired;
    }

    method Verify(m: Message, h: Headers, now: int) returns (v: Verdict)
      modifies this
      ensures v == Judge(c, old(seen), m, h, now) && seen == Next(c, old(seen), m, h, now)
      ensures v == StaleTimestamp <==> now < h.timestamp - c.maxSkew || now > h.timestamp + c.maxSkew
      ensures v == BadSignature <==>
              h.timestamp - c.maxSkew <= now <= h.timestamp + c.maxSkew
              && h.signature != c.hmac(SignedText(c.upper(m.verb), m.path, h.timestamp, h.nonce, c.digest(m.body)))
      ensures v == ReplayedNonce || v == Ok ==> (v == ReplayedNonce <==> h.nonce in old(seen) && old(seen)[h.nonce] > now)
    {
      VerdictIs(c, seen, m, h, now);
      if now - h.timestamp > c.maxSkew || h.timestamp - now > c.maxSkew {
        return StaleTimestamp;
      }
      var expected := Mac(c, m, h.timestamp, h.nonce);
      if expected != h.signature {
        return BadSignature;
      }
      CollectGarbage(now);
      if h.nonce in seen {
        return ReplayedNonce;
      }
      seen := seen[h.nonce := now + c.nonceTtl];
      return Ok;
    }
  }
}
