/**
  The head of a response: the status line and the header lines that `http_get` of
  os_net/comp_networking/examples/http_client.py reads. Text decoded as Latin-1 is its bytes.
*/
module HttpHead {
  import opened Bytes
  import opened Chunked
  import opened Sequences
  import opened Wrappers

  const COLON: byte := 58
  const BLANK_CHAR: byte := 32
  const TRANSFER_ENCODING: seq<byte> := [116, 114, 97, 110, 115, 102, 101, 114, 45, 101, 110, 99, 111, 100, 105, 110, 103]
  const CONTENT_LENGTH: seq<byte> := [99, 111, 110, 116, 101, 110, 116, 45, 108, 101, 110, 103, 116, 104]
  const CHUNKED: seq<byte> := [99, 104, 117, 110, 107, 101, 100]

  /** What the framing needs of the head; `BadStatus` is the ValueError of a status that is no number. */
  datatype Head = BadStatus | Head(chunked: bool, length: Length)
  datatype Length = Absent | NotANumber | Octets(n: int)

  // ---------- text ----------

  /** `str.isspace` on Latin-1. */
  predicate TextSpace(c: byte) { 9 <= c <= 13 || 28 <= c <= 32 || c == 133 || c == 160 }

  /** `str.lower` on Latin-1. */
  function Lower(c: byte): byte {
    if 65 <= c <= 90 || (192 <= c <= 222 && c != 215) then c + 32 else c
  }

  function Lowered(b: seq<byte>): (l: seq<byte>)
    ensures |l| == |b| && forall i :: 0 <= i < |b| ==> l[i] == Lower(b[i])
  {
    if b == [] then [] else [Lower(b[0])] + Lowered(b[1..])
  }

  /** `b.split(CRLF)` */
  function Lines(b: seq<byte>): (lines: seq<seq<byte>>)
    ensures lines != []
    decreases |b|
  {
    if Find(b, CRLF) < 0 then [b] else [Line(b)] + Lines(Rest(b))
  }

  /** `int(text)` */
  function Number(text: seq<byte>): Option<int> { Int(Strip(text, TextSpace), 10) }

  /** The second of the fields that single blanks separate, empty if there is none. */
  function SecondField(line: seq<byte>): seq<byte> {
    UpTo(Drop(line, |UpTo(line, BLANK_CHAR)| + 1), BLANK_CHAR)
  }

  // ---------- header lines ----------

  predicate IsField(line: seq<byte>) { COLON in line }

  function FieldName(line: seq<byte>): seq<byte> { Lowered(Strip(UpTo(line, COLON), TextSpace)) }

  function FieldValue(line: seq<byte>): seq<byte> { Strip(Drop(line, |UpTo(line, COLON)| + 1), TextSpace) }

  /** The last value under this name. */
  function Header(lines: seq<seq<byte>>, name: seq<byte>): Option<seq<byte>> {
    if lines == [] then None
    else
      var line := lines[|lines| - 1];
      if IsField(line) && FieldName(line) == name then Some(FieldValue(line)) else Header(lines[..|lines| - 1], name)
  }

  function HeadOf(lines: seq<seq<byte>>): Head
    requires lines != []
  {
    if Number(SecondField(lines[0])).None? then BadStatus
    else
      var fields := lines[1..];
      var encoding, length := Header(fields, TRANSFER_ENCODING), Header(fields, CONTENT_LENGTH);
      Head(encoding.Some? && Lowered(encoding.value) == CHUNKED,
           if length.None? then Absent else if Number(length.value).None? then NotANumber else Octets(Number(length.value).value))
  }

  /** The head of a response as `http_get` understands it. */
  function ReadHead(head: seq<byte>): Head { HeadOf(Lines(head)) }

  /** The dictionary that the loop over the header lines builds. */
  method ParseHeaders(lines: seq<seq<byte>>) returns (headers: map<seq<byte>, seq<byte>>)
    ensures forall name :: name in headers <==> Header(lines, name).Some?
    ensures forall name :: name in headers ==> Header(lines, name) == Some(headers[name])
  {
    headers := map[];
    for k := 0 to |lines|
      invariant forall name :: name in headers <==> Header(lines[..k], name).Some?
      invariant forall name :: name in headers ==> Header(lines[..k], name) == Some(headers[name])
    {
      var line := lines[k];
      assert lines[..k + 1][..k] == lines[..k];
      if IsField(line) {
        headers := headers[FieldName(line) := FieldValue(line)];
      }
    }
    assert lines[..|lines|] == lines;
  }

  /** Steps 2 and 3 of `http_get`, as far as the framing uses them. */
  method ParseHead(head: seq<byte>) returns (h: Head)
    ensures h == ReadHead(head)
  {
    var lines := Lines(head);
    var status := Number(SecondField(lines[0]));
    if status.None? {
      return BadStatus;
    }
    var headers := ParseHeaders(lines[1..]);
    var chunked := TRANSFER_ENCODING in headers && Lowered(headers[TRANSFER_ENCODING]) == CHUNKED;
    if CONTENT_LENGTH !in headers {
      return Head(chunked, Absent);
    }
    var n := Number(headers[CONTENT_LENGTH]);
    return Head(chunked, if n.None? then NotANumber else Octets(n.value));
  }

  // ---------- writing a head ----------

  /** A field and the white space written around its value. */
  datatype Field = Field(name: seq<byte>, left: seq<byte>, value: seq<byte>, right: seq<byte>) {
    /** Fields that stay as they are: no carriage return, no colon in the name, no space around either. */
    predicate Plain() {
      && CR !in name && CR !in value && COLON !in name
      && Trimmed(name) && Trimmed(value) && Padding(left) && Padding(right)
    }
  }

  /** Blanks and tabs. */
  predicate Padding(b: seq<byte>) { forall i :: 0 <= i < |b| ==> b[i] == 32 || b[i] == 9 }

  predicate Trimmed(b: seq<byte>) { b != [] ==> !TextSpace(b[0]) && !TextSpace(b[|b| - 1]) }

  /** `name: value` */
  function FieldLine(f: Field): seq<byte> { f.name + ([COLON] + (f.left + (f.value + f.right))) }

  function FieldLines(fields: seq<Field>): (lines: seq<seq<byte>>)
    ensures |lines| == |fields| && forall i :: 0 <= i < |fields| ==> lines[i] == FieldLine(fields[i])
  {
    seq(|fields|, i requires 0 <= i < |fields| => FieldLine(fields[i]))
  }

  function JoinLines(lines: seq<seq<byte>>): seq<byte> {
    if lines == [] then [] else if |lines| == 1 then lines[0] else lines[0] + (CRLF + JoinLines(lines[1..]))
  }

  /** The value of the last field of this name, in any case of letters. */
  function LastValue(fields: seq<Field>, name: seq<byte>): Option<seq<byte>> {
    if fields == [] then None
    else if Lowered(fields[|fields| - 1].name) == name then Some(fields[|fields| - 1].value)
    else LastValue(fields[..|fields| - 1], name)
  }

  lemma FieldRead(f: Field)
    requires f.Plain()
    ensures IsField(FieldLine(f)) && FieldName(FieldLine(f)) == Lowered(f.name) && FieldValue(FieldLine(f)) == f.value
  {
    ColonCuts(f.name, f.left + (f.value + f.right), FieldLine(f));
    StripNothing(f.name, TextSpace);
    Padded(f.left, f.value, f.right, TextSpace);
  }

  lemma ColonCuts(name: seq<byte>, v: seq<byte>, line: seq<byte>)
    requires COLON !in name && line == name + ([COLON] + v)
    ensures IsField(line) && UpTo(line, COLON) == name && Drop(line, |name| + 1) == v
  {
    assert line[|name|] == COLON;
    UpToFirst(name, COLON, v);
  }

  /** Written fields are read back: every name, in any case, gives the value of its last field. */
  lemma {:induction false} FieldsRead(fields: seq<Field>, name: seq<byte>)
    requires forall i :: 0 <= i < |fields| ==> fields[i].Plain()
    ensures Header(FieldLines(fields), name) == LastValue(fields, name)
  {
    if fields != [] {
      var front, last := fields[..|fields| - 1], fields[|fields| - 1];
      assert FieldLines(fields)[..|fields| - 1] == FieldLines(front);
      FieldsRead(front, name);
      FieldRead(last);
    }
  }

  // ---------- a written head in a stream ----------

  const BLANK: seq<byte> := CRLF + CRLF

  predicate PlainLines(lines: seq<seq<byte>>) { forall i :: 0 <= i < |lines| ==> lines[i] != [] && CR !in lines[i] }

  lemma {:induction false} NoMarker(a: seq<byte>)
    requires CR !in a
    ensures Find(a, CRLF) < 0
  {
    if |a| >= 2 {
      assert a[..2][0] == a[0];
      NoMarker(a[1..]);
    }
  }

  /** Splitting undoes joining lines without carriage returns. */
  lemma {:induction false} LinesOfJoin(lines: seq<seq<byte>>)
    requires lines != [] && PlainLines(lines)
    ensures Lines(JoinLines(lines)) == lines
  {
    if |lines| == 1 {
      NoMarker(lines[0]);
    } else {
      LineOf(lines[0], JoinLines(lines[1..]));
      LinesOfJoin(lines[1..]);
      assert lines == [lines[0]] + lines[1..];
    }
  }

  lemma {:induction false} LineEndIsNoBlank(a: seq<byte>, rest: seq<byte>)
    requires CR !in a && rest != [] && rest[0] != CR && Find(rest, BLANK) >= 0
    ensures Find(a + (CRLF + rest), BLANK) == |a| + 2 + Find(rest, BLANK)
  {
    var t := a + (CRLF + rest);
    if a == [] {
      assert t == [CR, LF] + rest;
      assert t[..4][2] == rest[0];
      assert t[1..] == [LF] + rest && t[1..][1..] == rest;
      assert t[1..][..4][0] == LF;
      assert Find(t[1..], BLANK) == 1 + Find(rest, BLANK);
    } else {
      assert t[..4][0] == a[0];
      assert t[1..] == a[1..] + (CRLF + rest);
      LineEndIsNoBlank(a[1..], rest);
    }
  }

  lemma JoinStart(lines: seq<seq<byte>>, t: seq<byte>)
    requires lines != [] && PlainLines(lines)
    ensures JoinLines(lines) != [] && (JoinLines(lines) + t)[0] != CR
  {
    assert lines[0] != [] && JoinLines(lines)[0] == lines[0][0];
  }

  /** The first blank line behind non-empty lines is the one that ends them. */
  lemma {:induction false} HeadEnds(lines: seq<seq<byte>>, t: seq<byte>)
    requires lines != [] && PlainLines(lines)
    ensures Find(JoinLines(lines) + (BLANK + t), BLANK) == |JoinLines(lines)|
  {
    if |lines| == 1 {
      FindMarked(lines[0], BLANK, t);
    } else {
      var rest := lines[1..];
      HeadEnds(rest, t);
      JoinStart(rest, BLANK + t);
      LineEndIsNoBlank(lines[0], JoinLines(rest) + (BLANK + t));
      assert JoinLines(lines) + (BLANK + t) == lines[0] + (CRLF + (JoinLines(rest) + (BLANK + t)));
    }
  }

  lemma HeadCuts(lines: seq<seq<byte>>, t: seq<byte>)
    requires lines != [] && PlainLines(lines)
    ensures Until(JoinLines(lines) + (BLANK + t), BLANK) == JoinLines(lines)
    ensures Beyond(JoinLines(lines) + (BLANK + t), BLANK) == t
  {
    HeadEnds(lines, t);
    var s := JoinLines(lines) + (BLANK + t);
    assert s[..|JoinLines(lines)|] == JoinLines(lines) && s[|JoinLines(lines)| + 4..] == t;
  }
}
