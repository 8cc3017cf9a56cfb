/**
  `http_get` of os_net/comp_networking/examples/http_client.py on the bytes of a response as RFC 9112
  writes it: what the client returns, said in literal bytes alone.
*/
module ServedText {
  import opened Bytes
  import opened Chunked
  import opened HttpClient
  import opened HttpHead
  import opened HttpResponse
  import opened Sequences
  import opened Wrappers

  // ---------- words in either case ----------

  /** The same byte, or a capital letter of the alphabet and its small one. */
  predicate SameLetter(x: int, y: int) {
    x == y || (65 <= x <= 90 && y == x + 32) || (65 <= y <= 90 && x == y + 32)
  }

  predicate Spelled(b: seq<byte>, word: string) {
    |b| == |word| && forall i :: 0 <= i < |b| ==> SameLetter(b[i], word[i] as int)
  }

  lemma SameLower(x: byte, y: byte)
    requires y < 128
    ensures SameLetter(x, y) <==> Lower(x) == Lower(y)
  {
  }

  /** The small letters of a word. */
  predicate SmallOf(lower: seq<byte>, word: string) {
    |lower| == |word| && forall i :: 0 <= i < |word| ==> word[i] < 128 as char && Lower(word[i] as int) == lower[i]
  }

  lemma SpelledIff(b: seq<byte>, word: string, lower: seq<byte>)
    requires SmallOf(lower, word)
    ensures Spelled(b, word) <==> Lowered(b) == lower
  {
    if |b| == |word| {
      forall i | 0 <= i < |b|
        ensures SameLetter(b[i], word[i] as int) <==> Lowered(b)[i] == lower[i]
      {
        SameLower(b[i], word[i] as int);
      }
    }
  }

  lemma Words()
    ensures SmallOf(TRANSFER_ENCODING, "Transfer-Encoding") && SmallOf(CONTENT_LENGTH, "Content-Length")
    ensures SmallOf(CHUNKED, "chunked")
  {
  }

  // ---------- which field counts ----------

  /** The last field of this name. */
  predicate LastOf(fields: seq<Field>, word: string, k: int) {
    0 <= k < |fields| && Spelled(fields[k].name, word) && forall j :: k < j < |fields| ==> !Spelled(fields[j].name, word)
  }

  lemma {:induction false} LastFound(fields: seq<Field>, word: string, lower: seq<byte>, k: int)
    requires SmallOf(lower, word) && LastOf(fields, word, k)
    ensures LastValue(fields, lower) == Some(fields[k].value)
  {
    var n := |fields| - 1;
    SpelledIff(fields[n].name, word, lower);
    if k < n { LastFound(fields[..n], word, lower, k); }
  }

  lemma {:induction false} NoneFound(fields: seq<Field>, word: string, lower: seq<byte>)
    requires SmallOf(lower, word) && forall j :: 0 <= j < |fields| ==> !Spelled(fields[j].name, word)
    ensures LastValue(fields, lower) == None
  {
    if fields != [] {
      var n := |fields| - 1;
      SpelledIff(fields[n].name, word, lower);
      NoneFound(fields[..n], word, lower);
    }
  }

  lemma {:induction false} SomeLast(fields: seq<Field>, word: string) returns (k: int)
    ensures if k < 0 then forall j :: 0 <= j < |fields| ==> !Spelled(fields[j].name, word) else LastOf(fields, word, k)
  {
    if fields == [] {
      k := -1;
    } else {
      var n := |fields| - 1;
      k := n;
      if !Spelled(fields[n].name, word) { k := SomeLast(fields[..n], word); }
    }
  }

  // ---------- decimal digits ----------

  predicate Decimal(b: seq<byte>) { b != [] && forall i :: 0 <= i < |b| ==> 48 <= b[i] <= 57 }

  function DecimalValue(b: seq<byte>): nat
    requires forall i :: 0 <= i < |b| ==> 48 <= b[i] <= 57
  {
    if b == [] then 0 else DecimalValue(b[..|b| - 1]) * 10 + (b[|b| - 1] - 48)
  }

  lemma {:induction false} DigitsOfDecimal(b: seq<byte>)
    requires Decimal(b)
    ensures Digits(b, 10, 0, false) == Some(DecimalValue(b))
  {
    var front, c := b[..|b| - 1], b[|b| - 1];
    assert b == front + [c];
    if front == [] {
      assert b == [c] && [c][1..] == [];
    } else {
      DigitsOfDecimal(front);
      DigitsSnoc(front, 10, 0, false, c, DecimalValue(front));
    }
  }

  lemma NumberOfDecimal(b: seq<byte>)
    requires Decimal(b)
    ensures Number(b) == Some(DecimalValue(b))
  {
    assert 48 <= b[0] <= 57 && 48 <= b[|b| - 1] <= 57;
    StripNothing(b, TextSpace);
    DigitsOfDecimal(b);
  }

  // ---------- the text of a head ----------

  /** A status line: a protocol, a blank, a code in digits, and perhaps a blank and a reason. */
  datatype Status = Status(proto: seq<byte>, code: seq<byte>, reason: seq<byte>) {
    predicate Written() {
      && 13 !in proto && 32 !in proto && Decimal(code)
      && 13 !in reason && (reason != [] ==> reason[0] == 32)
    }
    function Text(): seq<byte> { proto + ([32] + (code + reason)) }
  }

  predicate White(c: byte) { 9 <= c <= 13 || 28 <= c <= 32 || c == 133 || c == 160 }

  /** White space at either end would be stripped. */
  predicate Bare(b: seq<byte>) { b != [] ==> !White(b[0]) && !White(b[|b| - 1]) }

  predicate Written(f: Field) {
    && 13 !in f.name && 58 !in f.name && Bare(f.name)
    && 13 !in f.value && Bare(f.value)
    && (forall i :: 0 <= i < |f.left| ==> f.left[i] == 32 || f.left[i] == 9)
    && (forall i :: 0 <= i < |f.right| ==> f.right[i] == 32 || f.right[i] == 9)
  }

  function FieldsText(fields: seq<Field>): seq<byte> {
    if fields == [] then []
    else [13, 10] + fields[0].name + [58] + fields[0].left + fields[0].value + fields[0].right + FieldsText(fields[1..])
  }

  function ResponseText(status: Status, fields: seq<Field>, body: seq<byte>): seq<byte> {
    status.Text() + FieldsText(fields) + [13, 10, 13, 10] + body
  }

  predicate WrittenHead(status: Status, fields: seq<Field>) {
    status.Written() && forall i :: 0 <= i < |fields| ==> Written(fields[i])
  }

  lemma CodeRead(status: Status)
    requires status.Written()
    ensures SecondField(status.Text()) == status.code
  {
    var s, tail := status.Text(), status.code + status.reason;
    UpToFirst(status.proto, 32, tail);
    assert Drop(s, |status.proto| + 1) == tail;
    if status.reason == [] {
      assert tail == status.code;
      UpToAbsent(status.code, 32);
    } else {
      assert tail == status.code + ([32] + status.reason[1..]);
      UpToFirst(status.code, 32, status.reason[1..]);
    }
  }

  lemma WrittenIsPlain(f: Field)
    requires Written(f)
    ensures f.Plain()
  {
  }

  lemma HeadIsGood(status: Status, fields: seq<Field>)
    requires WrittenHead(status, fields)
    ensures GoodHead(status.Text(), fields)
  {
    CodeRead(status);
    NumberOfDecimal(status.code);
    assert status.Text()[|status.proto|] == 32;
    forall i | 0 <= i < |fields|
      ensures fields[i].Plain()
    {
      WrittenIsPlain(fields[i]);
    }
  }

  lemma {:induction false} HeadText(line: seq<byte>, fields: seq<Field>)
    ensures JoinLines([line] + FieldLines(fields)) == line + FieldsText(fields)
    decreases fields
  {
    if fields == [] {
      assert [line] + FieldLines(fields) == [line];
    } else {
      var f, rest := fields[0], fields[1..];
      HeadText(FieldLine(f), rest);
      assert ([line] + FieldLines(fields))[1..] == [FieldLine(f)] + FieldLines(rest);
      FieldText(f, FieldsText(rest));
    }
  }

  lemma FieldText(f: Field, more: seq<byte>)
    ensures [13, 10] + f.name + [58] + f.left + f.value + f.right + more == CRLF + (FieldLine(f) + more)
  {
  }

  lemma TextIsServed(status: Status, fields: seq<Field>, body: seq<byte>)
    ensures ResponseText(status, fields, body) == Served(status.Text(), fields, body)
  {
    HeadText(status.Text(), fields);
  }

  // ---------- server to client ----------

  /** The fields name a chunked transfer: the last Transfer-Encoding among them says so. */
  ghost predicate SaysChunked(fields: seq<Field>) {
    exists k :: LastOf(fields, "Transfer-Encoding", k) && Spelled(fields[k].value, "chunked")
  }

  lemma ChunkedIff(fields: seq<Field>)
    ensures Announced(fields).chunked <==> SaysChunked(fields)
  {
    Words();
    var k := SomeLast(fields, "Transfer-Encoding");
    if k < 0 {
      NoneFound(fields, "Transfer-Encoding", TRANSFER_ENCODING);
    } else {
      LastFound(fields, "Transfer-Encoding", TRANSFER_ENCODING, k);
      SpelledIff(fields[k].value, "chunked", CHUNKED);
    }
  }

  /** Chunked, in any case of letters, with any other fields around, sizes in either case, extensions,
      trailers, and any fragments: the client returns the data of the chunks. */
  lemma ChunkedText(status: Status, fields: seq<Field>, parts: seq<Part>, last: Part, trailer: seq<byte>, f: Fragments)
    requires WrittenHead(status, fields) && SaysChunked(fields)
    requires forall i :: 0 <= i < |parts| ==> parts[i].Proper() && parts[i].data != []
    requires last.Proper() && last.data == []
    requires Flatten(f) == ResponseText(status, fields, PartsText(parts) + (last.digits + last.ext + [13, 10] + trailer))
    ensures Got(f) == Body(DataOf(parts))
  {
    var body := PartsText(parts) + (last.digits + last.ext + [13, 10] + trailer);
    DecodeParts(parts, last, trailer);
    ChunkedIff(fields);
    FramedText(status, fields, body, f);
  }

  /** A head as written is read as announced. */
  lemma FramedText(status: Status, fields: seq<Field>, body: seq<byte>, f: Fragments)
    requires WrittenHead(status, fields) && Flatten(f) == ResponseText(status, fields, body)
    ensures Announced(fields).chunked && !Decode(body).Negative? ==> Got(f) == Decode(body)
    ensures Announced(fields) == Head(false, Absent) ==> Got(f) == Body(body)
    ensures forall n: nat :: Announced(fields) == Head(false, Octets(n)) ==> Got(f) == Body(Take(body, n))
  {
    HeadIsGood(status, fields);
    TextIsServed(status, fields, body);
    ServedHead(status.Text(), fields, body);
    if !Response(Flatten(f)).Negative? { GotIsResponse(f); }
  }

  /** Not chunked, and the last Content-Length holds the digits of the body's length. */
  lemma LengthText(status: Status, fields: seq<Field>, k: int, body: seq<byte>, extra: seq<byte>, f: Fragments)
    requires WrittenHead(status, fields) && !SaysChunked(fields)
    requires LastOf(fields, "Content-Length", k) && Decimal(fields[k].value) && DecimalValue(fields[k].value) == |body|
    requires Flatten(f) == ResponseText(status, fields, body + extra)
    ensures Got(f) == Body(body)
  {
    Words();
    ChunkedIff(fields);
    LastFound(fields, "Content-Length", CONTENT_LENGTH, k);
    NumberOfDecimal(fields[k].value);
    FramedText(status, fields, body + extra, f);
    assert Take(body + extra, |body|) == body;
  }

  /** Neither: everything up to the end of the stream. */
  lemma OpenText(status: Status, fields: seq<Field>, body: seq<byte>, f: Fragments)
    requires WrittenHead(status, fields) && !SaysChunked(fields)
    requires forall j :: 0 <= j < |fields| ==> !Spelled(fields[j].name, "Content-Length")
    requires Flatten(f) == ResponseText(status, fields, body)
    ensures Got(f) == Body(body)
  {
    Words();
    ChunkedIff(fields);
    NoneFound(fields, "Content-Length", CONTENT_LENGTH);
    FramedText(status, fields, body, f);
  }
}
