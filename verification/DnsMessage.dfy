/**
  Whole DNS messages: `build_query` and `parse_response` of
  os_net/comp_networking/examples/dns_query.py, against a serializer of section 4.1 of RFC 1035.
*/
module DnsMessage {
  import opened Bytes
  import opened DnsName
  import opened Strings
  import opened Wrappers

  /** The exceptions of `parse_response`: from `read_name`, and `struct.error` on a short slice. */
  datatype Error = Index | Limit | Struct
  datatype Outcome<T> = Ok(value: T) | Err(error: Error)

  const TYPE_A: nat := 1
  const CLASS_IN: nat := 1

  datatype Answer = Answer(name: seq<Label>, rtype: nat, rclass: nat, ttl: nat, value: Option<string>)
  datatype Response = Response(id: nat, rcode: nat, qdcount: nat, ancount: nat, answers: seq<Answer>)

  // ---------- dotted addresses ----------

  function Numerals(b: seq<byte>): (parts: seq<string>)
    ensures |parts| == |b|
  {
    if b == [] then [] else [Decimal(b[0])] + Numerals(b[1..])
  }

  /** `".".join(str(b) for b in rdata)` */
  function Dotted(b: seq<byte>): string { Join(Numerals(b), '.') }

  lemma {:induction false} NumeralsPlain(b: seq<byte>)
    ensures forall i :: 0 <= i < |b| ==> Without(Numerals(b)[i], '.') && Value(Numerals(b)[i]) == b[i]
  {
    if b != [] {
      NumeralsPlain(b[1..]);
      DecimalValue(b[0]);
    }
  }

  /** The text determines the bytes. */
  lemma DottedInjective(a: seq<byte>, b: seq<byte>)
    requires a != [] && b != [] && Dotted(a) == Dotted(b)
    ensures a == b
  {
    NumeralsPlain(a);
    NumeralsPlain(b);
    SplitJoin(Numerals(a), '.');
    SplitJoin(Numerals(b), '.');
    assert forall i :: 0 <= i < |a| ==> Value(Numerals(a)[i]) == a[i];
  }

  // ---------- parsing ----------

  /** `struct.unpack("!H", ...)` */
  function U16(m: seq<byte>, off: nat): nat
    requires off + 2 <= |m|
  {
    var high: int := m[off];
    high * 256 + m[off + 1]
  }

  /** `struct.unpack("!I", ...)` */
  function U32(m: seq<byte>, off: nat): nat
    requires off + 4 <= |m|
  {
    U16(m, off) * 65536 + U16(m, off + 2)
  }

  function NameError(r: ReadResult): Error
    requires !r.Name?
  {
    if r.IndexError? then Index else Limit
  }

  /** The offset after n questions. */
  function Skip(m: seq<byte>, limit: nat, off: nat, n: nat): Outcome<nat>
    decreases n
  {
    if n == 0 then Ok(off)
    else
      var r := Read(m, off, limit);
      if r.Name? then Skip(m, limit, r.next + 4, n - 1) else Err(NameError(r))
  }

  /** What is kept of the data: an address as text. */
  function ValueOf(rtype: nat, rdlength: nat, rdata: seq<byte>): Option<string> {
    if rtype == TYPE_A && rdlength == 4 then Some(Dotted(rdata)) else None
  }

  /** The fixed fields and data of a record whose name ends at `off`, and the offset after it. */
  function Fields(m: seq<byte>, name: seq<Label>, off: nat): Outcome<(Answer, nat)> {
    if off + 10 > |m| then Err(Struct)
    else
      var rtype, rdlength := U16(m, off), U16(m, off + 8);
      var rdata := Slice(m, off + 10, rdlength);
      var value := ValueOf(rtype, rdlength, rdata);
      Ok((Answer(name, rtype, U16(m, off + 2), U32(m, off + 4), value), off + 10 + rdlength))
  }

  function One(m: seq<byte>, limit: nat, off: nat): Outcome<(Answer, nat)> {
    var r := Read(m, off, limit);
    if r.Name? then Fields(m, r.labels, r.next) else Err(NameError(r))
  }

  /** n records from `off`. */
  function Answers(m: seq<byte>, limit: nat, off: nat, n: nat): Outcome<seq<Answer>>
    decreases n
  {
    if n == 0 then Ok([])
    else
      var a := One(m, limit, off);
      if a.Err? then Err(a.error) else Consed(a.value.0, Answers(m, limit, a.value.1, n - 1))
  }

  function Consed(a: Answer, rest: Outcome<seq<Answer>>): Outcome<seq<Answer>> {
    if rest.Ok? then Ok([a] + rest.value) else rest
  }

  function Parse(m: seq<byte>, limit: nat): Outcome<Response> {
    if |m| < 12 then Err(Struct)
    else
      var id, flags, qd, an := U16(m, 0), U16(m, 2), U16(m, 4), U16(m, 6);
      var q := Skip(m, limit, 12, qd);
      if q.Err? then Err(q.error)
      else
        var a := Answers(m, limit, q.value, an);
        if a.Err? then Err(a.error) else Ok(Response(id, flags % 16, qd, an, a.value))
  }

  /** The loop over the question section. */
  method SkipSection(m: seq<byte>, limit: nat, start: nat, n: nat) returns (result: Outcome<nat>)
    ensures result == Skip(m, limit, start, n)
  {
    var offset: nat := start;
    for i := 0 to n
      invariant Skip(m, limit, start, n) == Skip(m, limit, offset, n - i)
    {
      var r := ReadWithin(m, offset, limit);
      if !r.Name? {
        return Err(NameError(r));
      }
      offset := r.next + 4;
    }
    result := Ok(offset);
  }

  /** One record of the answer section. */
  method ReadRecord(m: seq<byte>, limit: nat, offset: nat) returns (result: Outcome<(Answer, nat)>)
    ensures result == One(m, limit, offset)
  {
    var r := ReadWithin(m, offset, limit);
    if !r.Name? {
      return Err(NameError(r));
    }
    var off := r.next;
    if off + 10 > |m| {
      return Err(Struct);
    }
    var rtype, rclass := U16(m, off), U16(m, off + 2);
    var ttl, rdlength := U32(m, off + 4), U16(m, off + 8);
    var rdata := Slice(m, off + 10, rdlength);
    var value: Option<string> := None;
    if rtype == TYPE_A && rdlength == 4 {
      value := Some(Dotted(rdata));
    }
    var end: nat := off + 10 + rdlength;
    result := Ok((Answer(r.labels, rtype, rclass, ttl, value), end));
  }

  lemma AnswersStep(m: seq<byte>, limit: nat, off: nat, n: nat)
    requires n > 0
    ensures One(m, limit, off).Err? ==> Answers(m, limit, off, n) == Err(One(m, limit, off).error)
    ensures One(m, limit, off).Ok? ==>
              Answers(m, limit, off, n) == Consed(One(m, limit, off).value.0, Answers(m, limit, One(m, limit, off).value.1, n - 1))
  {
  }

  /** The loop over the answer section. */
  method ReadSection(m: seq<byte>, limit: nat, start: nat, n: nat) returns (result: Outcome<seq<Answer>>)
    ensures result == Answers(m, limit, start, n)
  {
    var offset, answers: seq<Answer> := start, [];
    ResumedNone(Answers(m, limit, start, n));
    for i := 0 to n
      invariant Answers(m, limit, start, n) == Resumed(answers, Answers(m, limit, offset, n - i))
    {
      AnswersStep(m, limit, offset, n - i);
      var f := ReadRecord(m, limit, offset);
      if f.Err? {
        return Err(f.error);
      }
      ResumedStep(answers, f.value.0, Answers(m, limit, f.value.1, n - i - 1));
      answers := answers + [f.value.0];
      offset := f.value.1;
    }
    assert answers + [] == answers;
    result := Ok(answers);
  }

  lemma ResumedNone(rest: Outcome<seq<Answer>>)
    ensures Resumed([], rest) == rest
  {
    if rest.Ok? { assert [] + rest.value == rest.value; }
  }

  /** `parse_response` */
  method ParseResponse(m: seq<byte>) returns (result: Outcome<Response>)
    ensures result == Parse(m, MAX_STEPS) && MAX_STEPS == 128
  {
    result := ParseWithin(m, MAX_STEPS);
  }

  /** The same for any limit on the steps of a name; `flags & 0x000F` is `flags % 16`. */
  method ParseWithin(m: seq<byte>, limit: nat) returns (result: Outcome<Response>)
    ensures result == Parse(m, limit)
  {
    if |m| < 12 {
      return Err(Struct);
    }
    var id, flags, qd, an := U16(m, 0), U16(m, 2), U16(m, 4), U16(m, 6);
    var q := SkipSection(m, limit, 12, qd);
    if q.Err? {
      return Err(q.error);
    }
    var a := ReadSection(m, limit, q.value, an);
    if a.Err? {
      return Err(a.error);
    }
    return Ok(Response(id, flags % 16, qd, an, a.value));
  }

  ghost function Resumed(done: seq<Answer>, rest: Outcome<seq<Answer>>): Outcome<seq<Answer>> {
    if rest.Ok? then Ok(done + rest.value) else rest
  }

  lemma ResumedStep(done: seq<Answer>, a: Answer, rest: Outcome<seq<Answer>>)
    ensures Resumed(done, Consed(a, rest)) == Resumed(done + [a], rest)
  {
    if rest.Ok? { assert done + ([a] + rest.value) == (done + [a]) + rest.value; }
  }

  // ---------- serializing ----------

  /** How a name ends on the wire: with a zero byte, or after some of its labels with a pointer. */
  datatype Ending = Plain | Pointer(front: nat, target: nat)

  /** A name and the way to write it. */
  datatype WireName = WireName(labels: seq<Label>, ending: Ending) {
    predicate Valid() { Readable(labels) && (ending.Pointer? ==> ending.front <= |labels| && ending.target < 0x4000) }
  }

  function NameBytes(w: WireName): seq<byte>
    requires w.Valid()
  {
    match w.ending
    case Plain => Enc(w.labels) + [0]
    case Pointer(front, target) => Enc(w.labels[..front]) + PointerBytes(target)
  }

  /** The pointer, if any, points to an encoding in m of the labels it stands for, and it all takes at
      most `limit` steps. */
  ghost predicate Placed(m: seq<byte>, limit: nat, w: WireName)
    requires w.Valid()
  {
    match w.ending
    case Plain => |w.labels| < limit
    case Pointer(front, target) =>
      exists steps: nat :: front + 1 + steps <= limit && Encodes(m, target, w.labels[front..], steps)
  }

  datatype Question = Question(name: WireName, qtype: nat, qclass: nat) {
    predicate Valid() { name.Valid() && qtype < 65536 && qclass < 65536 }
  }

  datatype Record = Record(name: WireName, rtype: nat, rclass: nat, ttl: nat, rdata: seq<byte>) {
    predicate Valid() {
      name.Valid() && rtype < 65536 && rclass < 65536 && ttl < 0x1_0000_0000 && |rdata| < 65536
    }
  }

  function QuestionBytes(q: Question): seq<byte>
    requires q.Valid()
  {
    NameBytes(q.name) + (ToBytes(q.qtype, 2) + ToBytes(q.qclass, 2))
  }

  function FieldBytes(r: Record): (b: seq<byte>)
    requires r.Valid()
    ensures |b| == 10 + |r.rdata|
  {
    ToBytes(r.rtype, 2) + ToBytes(r.rclass, 2) + ToBytes(r.ttl, 4) + ToBytes(|r.rdata|, 2) + r.rdata
  }

  function RecordBytes(r: Record): seq<byte>
    requires r.Valid()
  {
    NameBytes(r.name) + FieldBytes(r)
  }

  function Concat(parts: seq<seq<byte>>): seq<byte> {
    if parts == [] then [] else Concat(parts[..|parts| - 1]) + parts[|parts| - 1]
  }

  predicate ValidQuestions(qs: seq<Question>) { forall i :: 0 <= i < |qs| ==> qs[i].Valid() }

  predicate ValidRecords(rs: seq<Record>) { forall i :: 0 <= i < |rs| ==> rs[i].Valid() }

  /** The wire forms of the questions and of the records, one by one. */
  function QuestionParts(qs: seq<Question>): (parts: seq<seq<byte>>)
    requires ValidQuestions(qs)
    ensures |parts| == |qs| && forall i :: 0 <= i < |qs| ==> parts[i] == QuestionBytes(qs[i])
  {
    seq(|qs|, i requires 0 <= i < |qs| => QuestionBytes(qs[i]))
  }

  function RecordParts(rs: seq<Record>): (parts: seq<seq<byte>>)
    requires ValidRecords(rs)
    ensures |parts| == |rs| && forall i :: 0 <= i < |rs| ==> parts[i] == RecordBytes(rs[i])
  {
    seq(|rs|, i requires 0 <= i < |rs| => RecordBytes(rs[i]))
  }

  function Header(id: nat, flags: nat, qd: nat, an: nat, ns: nat, ar: nat): (b: seq<byte>)
    ensures |b| == 12
  {
    ToBytes(id, 2) + ToBytes(flags, 2) + ToBytes(qd, 2) + ToBytes(an, 2) + ToBytes(ns, 2) + ToBytes(ar, 2)
  }

  /** What the source keeps of a record. */
  function Kept(r: Record): Answer {
    Answer(r.name.labels, r.rtype, r.rclass, r.ttl, ValueOf(r.rtype, |r.rdata|, r.rdata))
  }

  function AllKept(rs: seq<Record>): (kept: seq<Answer>)
    ensures |kept| == |rs| && forall i :: 0 <= i < |rs| ==> kept[i] == Kept(rs[i])
  {
    seq(|rs|, i requires 0 <= i < |rs| => Kept(rs[i]))
  }

  ghost predicate QuestionsPlaced(m: seq<byte>, limit: nat, qs: seq<Question>)
    requires ValidQuestions(qs)
  {
    forall i :: 0 <= i < |qs| ==> Placed(m, limit, qs[i].name)
  }

  ghost predicate RecordsPlaced(m: seq<byte>, limit: nat, rs: seq<Record>)
    requires ValidRecords(rs)
  {
    forall i :: 0 <= i < |rs| ==> Placed(m, limit, rs[i].name)
  }

  // ---------- parsing undoes serializing ----------

  /** A wire name, plain or compressed, is read as the name that was written, and reading ends right
      after it. */
  lemma ReadWire(m: seq<byte>, limit: nat, off: nat, w: WireName)
    requires w.Valid() && At(m, off, NameBytes(w)) && Placed(m, limit, w)
    ensures Read(m, off, limit) == Name(w.labels, off + |NameBytes(w)|)
  {
    match w.ending
    case Plain => PlainRead(m, off, w.labels, limit);
    case Pointer(front, target) =>
      var steps: nat :| front + 1 + steps <= limit && Encodes(m, target, w.labels[front..], steps);
      CompressedRoundTrip(m, off, w.labels[..front], w.labels[front..], target, steps, limit);
      assert w.labels[..front] + w.labels[front..] == w.labels;
  }

  lemma AtIndex(m: seq<byte>, off: nat, b: seq<byte>, i: nat)
    requires At(m, off, b) && i < |b|
    ensures m[off + i] == b[i]
  {
    assert m[off..off + |b|][i] == m[off + i];
  }

  lemma TwoBytes(x: nat)
    requires x < 65536
    ensures ToBytes(x, 2) == [x / 256, x % 256]
  {
    assert ToBytes(x / 256, 1) == ToBytes(x / 256 / 256, 0) + [x / 256 % 256];
  }

  lemma ReadU16(m: seq<byte>, off: nat, x: nat)
    requires x < 65536 && At(m, off, ToBytes(x, 2))
    ensures off + 2 <= |m| && U16(m, off) == x
  {
    TwoBytes(x);
    AtIndex(m, off, ToBytes(x, 2), 0);
    AtIndex(m, off, ToBytes(x, 2), 1);
  }

  lemma FourBytes(x: nat)
    requires x < 0x1_0000_0000
    ensures ToBytes(x, 4) == ToBytes(x / 65536, 2) + ToBytes(x % 65536, 2)
  {
    TwoBytes(x / 65536);
    TwoBytes(x % 65536);
    var y := x / 256;
    assert ToBytes(x, 4) == ToBytes(y, 3) + [x % 256];
    assert ToBytes(y, 3) == ToBytes(y / 256, 2) + [y % 256];
    assert y / 256 == x / 65536;
  }

  lemma ReadU32(m: seq<byte>, off: nat, x: nat)
    requires x < 0x1_0000_0000 && At(m, off, ToBytes(x, 4))
    ensures off + 4 <= |m| && U32(m, off) == x
  {
    FourBytes(x);
    AtParts(m, off, ToBytes(x / 65536, 2), ToBytes(x % 65536, 2));
    ReadU16(m, off, x / 65536);
    ReadU16(m, off + 2, x % 65536);
  }

  /** Where the parts of a concatenation placed at `off` begin, and where the last one ends. */
  function Starts(off: nat, parts: seq<seq<byte>>): (ends: seq<nat>)
    ensures |ends| == |parts| + 1 && ends[0] == off && ends[|parts|] == off + |Concat(parts)|
    ensures forall i :: 0 <= i < |parts| ==> ends[i + 1] == ends[i] + |parts[i]|
  {
    if parts == [] then [off]
    else
      var n := |parts| - 1;
      var ends := Starts(off, parts[..n]);
      ends + [ends[n] + |parts[n]|]
  }

  lemma {:induction false} PartPlaced(m: seq<byte>, off: nat, parts: seq<seq<byte>>, i: nat)
    requires At(m, off, Concat(parts)) && i < |parts|
    ensures At(m, Starts(off, parts)[i], parts[i])
    decreases |parts|
  {
    var n := |parts| - 1;
    var front := parts[..n];
    var ends := Starts(off, front);
    AtParts(m, off, Concat(front), parts[n]);
    assert Starts(off, parts) == ends + [ends[n] + |parts[n]|];
    if i < n {
      PartPlaced(m, off, front, i);
      assert front[i] == parts[i] && Starts(off, parts)[i] == ends[i];
    } else {
      assert Starts(off, parts)[i] == ends[n];
    }
  }

  /** A question occupies a..b. */
  predicate SkipsTo(m: seq<byte>, limit: nat, a: nat, b: nat) {
    Read(m, a, limit).Name? && Read(m, a, limit).next + 4 == b
  }

  lemma ReadQuestion(m: seq<byte>, limit: nat, off: nat, q: Question)
    requires q.Valid() && Placed(m, limit, q.name) && At(m, off, QuestionBytes(q))
    ensures SkipsTo(m, limit, off, off + |QuestionBytes(q)|)
  {
    AtParts(m, off, NameBytes(q.name), ToBytes(q.qtype, 2) + ToBytes(q.qclass, 2));
    ReadWire(m, limit, off, q.name);
  }

  lemma {:induction false} SkipChain(m: seq<byte>, limit: nat, ends: seq<nat>)
    requires ends != [] && forall i :: 0 <= i < |ends| - 1 ==> SkipsTo(m, limit, ends[i], ends[i + 1])
    ensures Skip(m, limit, ends[0], |ends| - 1) == Ok(ends[|ends| - 1])
    decreases |ends|
  {
    if |ends| > 1 {
      assert SkipsTo(m, limit, ends[0], ends[1]);
      SkipChain(m, limit, ends[1..]);
    }
  }

  /** Wherever these bytes stand in m, they are skipped as one question. */
  ghost predicate QuestionLike(m: seq<byte>, limit: nat, b: seq<byte>) {
    forall a: nat :: At(m, a, b) ==> SkipsTo(m, limit, a, a + |b|)
  }

  ghost predicate AllQuestionLike(m: seq<byte>, limit: nat, parts: seq<seq<byte>>) {
    forall i :: 0 <= i < |parts| ==> QuestionLike(m, limit, parts[i])
  }

  lemma SkipParts(m: seq<byte>, limit: nat, off: nat, parts: seq<seq<byte>>)
    requires At(m, off, Concat(parts)) && AllQuestionLike(m, limit, parts)
    ensures Skip(m, limit, off, |parts|) == Ok(off + |Concat(parts)|)
  {
    var ends := Starts(off, parts);
    forall i | 0 <= i < |ends| - 1
      ensures SkipsTo(m, limit, ends[i], ends[i + 1])
    {
      PartPlaced(m, off, parts, i);
      assert QuestionLike(m, limit, parts[i]);
    }
    SkipChain(m, limit, ends);
  }

  lemma ReadFields(m: seq<byte>, off: nat, r: Record)
    requires r.Valid() && At(m, off, FieldBytes(r))
    ensures Fields(m, r.name.labels, off) == Ok((Kept(r), off + |FieldBytes(r)|))
  {
    var a, b, c, d := ToBytes(r.rtype, 2), ToBytes(r.rclass, 2), ToBytes(r.ttl, 4), ToBytes(|r.rdata|, 2);
    AtParts(m, off, a + b + c + d, r.rdata);
    AtParts(m, off, a + b + c, d);
    AtParts(m, off, a + b, c);
    AtParts(m, off, a, b);
    ReadU16(m, off, r.rtype);
    ReadU16(m, off + 2, r.rclass);
    ReadU32(m, off + 4, r.ttl);
    ReadU16(m, off + 8, |r.rdata|);
    FieldsFrom(m, off, r);
  }

  lemma FieldsFrom(m: seq<byte>, off: nat, r: Record)
    requires off + 10 <= |m| && U16(m, off) == r.rtype && U16(m, off + 2) == r.rclass && U32(m, off + 4) == r.ttl
    requires U16(m, off + 8) == |r.rdata| && At(m, off + 10, r.rdata)
    ensures Fields(m, r.name.labels, off) == Ok((Kept(r), off + 10 + |r.rdata|))
  {
    assert Slice(m, off + 10, |r.rdata|) == r.rdata;
  }

  lemma ReadOne(m: seq<byte>, limit: nat, off: nat, r: Record)
    requires r.Valid() && At(m, off, RecordBytes(r))
    requires Read(m, off, limit) == Name(r.name.labels, off + |NameBytes(r.name)|)
    ensures Gives(m, limit, off, Kept(r), off + |RecordBytes(r)|)
  {
    RecordSplits(m, off, r);
    NameThenFields(m, limit, off, r, off + |NameBytes(r.name)|, off + |RecordBytes(r)|);
  }

  lemma ReadItsName(m: seq<byte>, limit: nat, off: nat, r: Record)
    requires r.Valid() && Placed(m, limit, r.name) && At(m, off, RecordBytes(r))
    ensures Read(m, off, limit) == Name(r.name.labels, off + |NameBytes(r.name)|)
  {
    RecordSplits(m, off, r);
    ReadWire(m, limit, off, r.name);
  }

  lemma RecordSplits(m: seq<byte>, off: nat, r: Record)
    requires r.Valid() && At(m, off, RecordBytes(r))
    ensures At(m, off, NameBytes(r.name)) && At(m, off + |NameBytes(r.name)|, FieldBytes(r))
    ensures |RecordBytes(r)| == |NameBytes(r.name)| + |FieldBytes(r)|
  {
    AtParts(m, off, NameBytes(r.name), FieldBytes(r));
  }

  lemma NameThenFields(m: seq<byte>, limit: nat, off: nat, r: Record, next: nat, end: nat)
    requires r.Valid() && Read(m, off, limit) == Name(r.name.labels, next) && At(m, next, FieldBytes(r))
    requires end == next + |FieldBytes(r)|
    ensures Gives(m, limit, off, Kept(r), end)
  {
    OneIsFields(m, limit, off, r.name.labels, next);
    ReadFields(m, next, r);
  }

  lemma OneIsFields(m: seq<byte>, limit: nat, off: nat, name: seq<Label>, next: nat)
    requires Read(m, off, limit) == Name(name, next)
    ensures One(m, limit, off) == Fields(m, name, next)
  {
  }

  /** Reading one record at a gives the answer and ends at b. */
  predicate Gives(m: seq<byte>, limit: nat, a: nat, answer: Answer, b: nat) {
    One(m, limit, a) == Ok((answer, b))
  }

  lemma AnswersCons(m: seq<byte>, limit: nat, a: nat, b: nat, kept: seq<Answer>)
    requires kept != [] && Gives(m, limit, a, kept[0], b) && Answers(m, limit, b, |kept| - 1) == Ok(kept[1..])
    ensures Answers(m, limit, a, |kept|) == Ok(kept)
  {
    AnswersOne(m, limit, a, |kept|, kept[0], b);
    ConsedAll(kept);
  }

  lemma AnswersOne(m: seq<byte>, limit: nat, off: nat, n: nat, a: Answer, b: nat)
    requires n > 0 && Gives(m, limit, off, a, b)
    ensures Answers(m, limit, off, n) == Consed(a, Answers(m, limit, b, n - 1))
  {
    AnswersStep(m, limit, off, n);
  }

  lemma ConsedAll(kept: seq<Answer>)
    requires kept != []
    ensures Consed(kept[0], Ok(kept[1..])) == Ok(kept)
  {
    assert kept == [kept[0]] + kept[1..];
  }

  lemma {:induction false} AnswersChain(m: seq<byte>, limit: nat, ends: seq<nat>, kept: seq<Answer>)
    requires |ends| == |kept| + 1 && forall i :: 0 <= i < |kept| ==> Gives(m, limit, ends[i], kept[i], ends[i + 1])
    ensures Answers(m, limit, ends[0], |kept|) == Ok(kept)
    decreases |kept|
  {
    if kept != [] {
      AnswersChain(m, limit, ends[1..], kept[1..]);
      AnswersCons(m, limit, ends[0], ends[1], kept);
    }
  }

  /** Wherever these bytes stand in m, they are read as this answer. */
  ghost predicate RecordLike(m: seq<byte>, limit: nat, b: seq<byte>, kept: Answer) {
    forall a: nat :: At(m, a, b) ==> Gives(m, limit, a, kept, a + |b|)
  }

  ghost predicate AllRecordLike(m: seq<byte>, limit: nat, parts: seq<seq<byte>>, kept: seq<Answer>) {
    |parts| == |kept| && forall i :: 0 <= i < |parts| ==> RecordLike(m, limit, parts[i], kept[i])
  }

  lemma RecordAt(m: seq<byte>, limit: nat, a: nat, b: seq<byte>, kept: Answer)
    requires RecordLike(m, limit, b, kept) && At(m, a, b)
    ensures Gives(m, limit, a, kept, a + |b|)
  {
  }

  lemma PartRead(m: seq<byte>, limit: nat, off: nat, parts: seq<seq<byte>>, kept: seq<Answer>, i: nat)
    requires AllRecordLike(m, limit, parts, kept) && At(m, off, Concat(parts)) && i < |parts|
    ensures Gives(m, limit, Starts(off, parts)[i], kept[i], Starts(off, parts)[i + 1])
  {
    var ends := Starts(off, parts);
    PartPlaced(m, off, parts, i);
    assert RecordLike(m, limit, parts[i], kept[i]) && ends[i + 1] == ends[i] + |parts[i]|;
    RecordAt(m, limit, ends[i], parts[i], kept[i]);
  }

  lemma ReadParts(m: seq<byte>, limit: nat, off: nat, parts: seq<seq<byte>>, kept: seq<Answer>)
    requires AllRecordLike(m, limit, parts, kept) && At(m, off, Concat(parts))
    ensures Answers(m, limit, off, |kept|) == Ok(kept)
  {
    var ends := Starts(off, parts);
    forall i | 0 <= i < |kept|
      ensures Gives(m, limit, ends[i], kept[i], ends[i + 1])
    {
      PartRead(m, limit, off, parts, kept, i);
    }
    AnswersChain(m, limit, ends, kept);
  }

  lemma ReadHeader(m: seq<byte>, id: nat, flags: nat, qd: nat, an: nat, ns: nat, ar: nat)
    requires id < 65536 && flags < 65536 && qd < 65536 && an < 65536
    requires At(m, 0, Header(id, flags, qd, an, ns, ar))
    ensures |m| >= 12 && U16(m, 0) == id && U16(m, 2) == flags && U16(m, 4) == qd && U16(m, 6) == an
  {
    var a, b, c, d, e, f := ToBytes(id, 2), ToBytes(flags, 2), ToBytes(qd, 2), ToBytes(an, 2), ToBytes(ns, 2), ToBytes(ar, 2);
    AtParts(m, 0, a + b + c + d + e, f);
    AtParts(m, 0, a + b + c + d, e);
    AtParts(m, 0, a + b + c, d);
    AtParts(m, 0, a + b, c);
    AtParts(m, 0, a, b);
    ReadU16(m, 0, id);
    ReadU16(m, 2, flags);
    ReadU16(m, 4, qd);
    ReadU16(m, 6, an);
  }

  /** A header, question-like parts and record-like parts parse as the header and the records. */
  lemma ParseParts(m: seq<byte>, limit: nat, id: nat, flags: nat, qs: seq<seq<byte>>, rs: seq<seq<byte>>,
                   ns: nat, ar: nat, rest: seq<byte>, kept: seq<Answer>)
    requires id < 65536 && flags < 65536 && |qs| < 65536 && |rs| < 65536
    requires AllQuestionLike(m, limit, qs) && AllRecordLike(m, limit, rs, kept)
    requires m == Header(id, flags, |qs|, |rs|, ns, ar) + (Concat(qs) + (Concat(rs) + rest))
    ensures Parse(m, limit) == Ok(Response(id, flags % 16, |qs|, |rs|, kept))
  {
    var head, q, r := Header(id, flags, |qs|, |rs|, ns, ar), Concat(qs), Concat(rs);
    ThreeParts(m, head, q, r, rest);
    ReadHeader(m, id, flags, |qs|, |rs|, ns, ar);
    SkipParts(m, limit, 12, qs);
    ReadParts(m, limit, 12 + |q|, rs, kept);
    ParseFrom(m, limit, |qs|, |rs|, 12 + |q|, kept);
  }

  lemma ThreeParts(m: seq<byte>, head: seq<byte>, q: seq<byte>, r: seq<byte>, rest: seq<byte>)
    requires m == head + (q + (r + rest))
    ensures At(m, 0, head) && At(m, |head|, q) && At(m, |head| + |q|, r)
  {
    assert At(m, 0, m);
    AtParts(m, 0, head, q + (r + rest));
    AtParts(m, |head|, q, r + rest);
    AtParts(m, |head| + |q|, r, rest);
  }

  lemma ParseFrom(m: seq<byte>, limit: nat, qd: nat, an: nat, end: nat, kept: seq<Answer>)
    requires |m| >= 12 && U16(m, 4) == qd && U16(m, 6) == an
    requires Skip(m, limit, 12, qd) == Ok(end) && Answers(m, limit, end, an) == Ok(kept)
    ensures Parse(m, limit) == Ok(Response(U16(m, 0), U16(m, 2) % 16, qd, an, kept))
  {
  }

  lemma QuestionIsLike(m: seq<byte>, limit: nat, q: Question)
    requires q.Valid() && Placed(m, limit, q.name)
    ensures QuestionLike(m, limit, QuestionBytes(q))
  {
    var b := QuestionBytes(q);
    forall a: nat | At(m, a, b)
      ensures SkipsTo(m, limit, a, a + |b|)
    {
      ReadQuestion(m, limit, a, q);
    }
  }

  lemma RecordIsLike(m: seq<byte>, limit: nat, r: Record)
    requires r.Valid() && Placed(m, limit, r.name)
    ensures RecordLike(m, limit, RecordBytes(r), Kept(r))
  {
    forall a: nat | At(m, a, RecordBytes(r))
      ensures Gives(m, limit, a, Kept(r), a + |RecordBytes(r)|)
    {
      ReadItsName(m, limit, a, r);
      ReadOne(m, limit, a, r);
    }
  }

  /** A message of section 4.1 of RFC 1035: header, questions, answer records, and whatever follows. */
  function Serialized(id: nat, flags: nat, qs: seq<Question>, rs: seq<Record>, ns: nat, ar: nat, rest: seq<byte>): seq<byte>
    requires ValidQuestions(qs) && ValidRecords(rs)
  {
    Header(id, flags, |qs|, |rs|, ns, ar) + (Concat(QuestionParts(qs)) + (Concat(RecordParts(rs)) + rest))
  }

  /**
    Whatever the questions and records, their names written plainly or with pointers to encodings
    anywhere in the message: `parse_response` recovers the header and all answer records in order,
    each with the name that was given to the serializer.
  */
  lemma ParseInvertsSerialize(m: seq<byte>, limit: nat, id: nat, flags: nat, qs: seq<Question>, rs: seq<Record>,
                              ns: nat, ar: nat, rest: seq<byte>)
    requires id < 65536 && flags < 65536 && |qs| < 65536 && |rs| < 65536
    requires ValidQuestions(qs) && QuestionsPlaced(m, limit, qs)
    requires ValidRecords(rs) && RecordsPlaced(m, limit, rs)
    requires m == Serialized(id, flags, qs, rs, ns, ar, rest)
    ensures Parse(m, limit) == Ok(Response(id, flags % 16, |qs|, |rs|, AllKept(rs)))
  {
    var qparts, rparts := QuestionParts(qs), RecordParts(rs);
    forall i | 0 <= i < |qs|
      ensures QuestionLike(m, limit, qparts[i])
    {
      QuestionIsLike(m, limit, qs[i]);
    }
    forall i | 0 <= i < |rs|
      ensures RecordLike(m, limit, rparts[i], AllKept(rs)[i])
    {
      RecordIsLike(m, limit, rs[i]);
    }
    ParseParts(m, limit, id, flags, qparts, rparts, ns, ar, rest, AllKept(rs));
  }

  /** The text is four numerals without leading zeros, the bytes in order. */
  predicate Spells(text: string, b: seq<byte>) {
    var parts := Split(text, '.');
    && |b| == 4 && |parts| == 4
    && forall j :: 0 <= j < 4 ==> parts[j] != "" && IsDigits(parts[j]) && Value(parts[j]) == b[j] && (|parts[j]| > 1 ==> parts[j][0] != '0')
  }

  lemma DottedSpells(b: seq<byte>)
    requires |b| == 4
    ensures Spells(Dotted(b), b)
  {
    NumeralsPlain(b);
    SplitJoin(Numerals(b), '.');
    forall j | 0 <= j < 4
      ensures Numerals(b)[j] == Decimal(b[j])
    {
      NumeralAt(b, j);
    }
    DecimalValue(b[0]);
    DecimalValue(b[1]);
    DecimalValue(b[2]);
    DecimalValue(b[3]);
    NoLeadingZero(b[0]);
    NoLeadingZero(b[1]);
    NoLeadingZero(b[2]);
    NoLeadingZero(b[3]);
  }

  lemma {:induction false} NumeralAt(b: seq<byte>, j: nat)
    requires j < |b|
    ensures Numerals(b)[j] == Decimal(b[j])
  {
    if j > 0 { NumeralAt(b[1..], j - 1); }
  }

  /** What parsing gives for a serialized record: its name and numbers, and its data as a dotted quad exactly
      for four bytes of type 1. */
  predicate Recovered(a: Answer, r: Record) {
    && a.name == r.name.labels && a.rtype == r.rtype && a.rclass == r.rclass && a.ttl == r.ttl
    && (a.value.Some? <==> r.rtype == 1 && |r.rdata| == 4)
    && (a.value.Some? ==> Spells(a.value.value, r.rdata))
  }

  lemma KeptRecovers(r: Record)
    ensures Recovered(Kept(r), r)
  {
    if r.rtype == 1 && |r.rdata| == 4 { DottedSpells(r.rdata); }
  }

  /** A serialized message parses to its id, its rcode, its counts and its records, one by one. */
  lemma ParsedAnswers(m: seq<byte>, limit: nat, id: nat, flags: nat, qs: seq<Question>, rs: seq<Record>,
                      ns: nat, ar: nat, rest: seq<byte>)
    requires id < 65536 && flags < 65536 && |qs| < 65536 && |rs| < 65536
    requires ValidQuestions(qs) && QuestionsPlaced(m, limit, qs)
    requires ValidRecords(rs) && RecordsPlaced(m, limit, rs)
    requires m == Serialized(id, flags, qs, rs, ns, ar, rest)
    ensures Parse(m, limit).Ok?
    ensures var p := Parse(m, limit).value;
            && p.id == id && p.rcode == flags % 16 && p.qdcount == |qs| && p.ancount == |rs| == |p.answers|
            && forall i :: 0 <= i < |rs| ==> Recovered(p.answers[i], rs[i])
  {
    ParseInvertsSerialize(m, limit, id, flags, qs, rs, ns, ar, rest);
    forall i | 0 <= i < |rs|
      ensures Recovered(AllKept(rs)[i], rs[i])
    {
      KeptRecovers(rs[i]);
    }
  }

  /** The sixteen-bit fields of a record, most significant byte first. */
  lemma FieldLayout(r: Record)
    requires r.Valid()
    ensures var b, n := FieldBytes(r), |r.rdata|;
            && b[0] == r.rtype / 256 && b[1] == r.rtype % 256 && b[2] == r.rclass / 256 && b[3] == r.rclass % 256
            && b[4] == r.ttl / 0x100_0000 && b[5] == r.ttl / 0x1_0000 % 256 && b[6] == r.ttl / 256 % 256 && b[7] == r.ttl % 256
            && b[8] == n / 256 && b[9] == n % 256 && b[10..] == r.rdata
  {
    TwoBytes(r.rtype);
    TwoBytes(r.rclass);
    TwoBytes(|r.rdata|);
    FourBytes(r.ttl);
    TwoBytes(r.ttl / 65536);
    TwoBytes(r.ttl % 65536);
  }

  /** Where the first question's name stands. */
  const FIRST_NAME: nat := 12

  /** The usual reply: one question, and records whose names point back at it. */
  predicate PointsBack(labels: seq<Label>, rs: seq<Record>) {
    forall i :: 0 <= i < |rs| ==> rs[i].name == WireName(labels, Pointer(0, FIRST_NAME))
  }

  /** Every usual reply parses to its records, each under the name asked for. */
  lemma ReplyParses(m: seq<byte>, limit: nat, id: nat, flags: nat, q: Question, rs: seq<Record>, rest: seq<byte>)
    requires id < 65536 && flags < 65536 && |rs| < 65536 && q.Valid() && ValidRecords(rs)
    requires q.name.ending == Plain && |q.name.labels| + 1 < limit && PointsBack(q.name.labels, rs)
    requires m == Serialized(id, flags, [q], rs, 0, 0, rest)
    ensures Parse(m, limit) == Ok(Response(id, flags % 16, 1, |rs|, AllKept(rs)))
  {
    var labels := q.name.labels;
    FirstNameEncoded(m, id, flags, q, rs, rest);
    forall i | 0 <= i < |rs|
      ensures Placed(m, limit, rs[i].name)
    {
      assert rs[i].name.labels[0..] == labels;
    }
    ParseInvertsSerialize(m, limit, id, flags, [q], rs, 0, 0, rest);
  }

  lemma FirstNameEncoded(m: seq<byte>, id: nat, flags: nat, q: Question, rs: seq<Record>, rest: seq<byte>)
    requires q.Valid() && ValidRecords(rs) && q.name.ending == Plain
    requires m == Serialized(id, flags, [q], rs, 0, 0, rest)
    ensures Encodes(m, FIRST_NAME, q.name.labels, |q.name.labels| + 1)
  {
    var parts := QuestionParts([q]);
    assert parts == [QuestionBytes(q)] && parts[..0] == [];
    assert Concat(parts) == QuestionBytes(q);
    ThreeParts(m, Header(id, flags, 1, |rs|, 0, 0), Concat(parts), Concat(RecordParts(rs)), rest);
    AtParts(m, FIRST_NAME, NameBytes(q.name), ToBytes(q.qtype, 2) + ToBytes(q.qclass, 2));
  }

  // ---------- queries ----------

  /** `build_query` for labels already split and encoded. */
  function QueryBytes(labels: seq<Label>, qtype: nat, id: nat): seq<byte>
    requires forall i :: 0 <= i < |labels| ==> |labels[i]| < 256
  {
    Header(id, 0x0100, 1, 0, 0, 0) + ((Enc(labels) + [0]) + (ToBytes(qtype, 2) + ToBytes(CLASS_IN, 2)))
  }

  /** A query parses as its own id, no error, one question and no answers. */
  lemma QueryParses(labels: seq<Label>, qtype: nat, id: nat, limit: nat)
    requires id < 65536 && qtype < 65536 && Readable(labels) && |labels| < limit
    ensures Parse(QueryBytes(labels, qtype, id), limit) == Ok(Response(id, 0, 1, 0, []))
  {
    var q := Question(WireName(labels, Plain), qtype, CLASS_IN);
    QuestionIsLike(QueryBytes(labels, qtype, id), limit, q);
    OneQuestion(QueryBytes(labels, qtype, id), limit, id, QuestionBytes(q));
  }

  /** The packet of a query, byte by byte: id, recursion desired, one question and no records; behind the
      name the type and class 1. */
  lemma QueryLayout(labels: seq<Label>, qtype: nat, id: nat)
    requires id < 65536 && qtype < 65536 && forall i :: 0 <= i < |labels| ==> |labels[i]| < 256
    ensures var m := QueryBytes(labels, qtype, id);
            && |m| >= 17 && m[0] == id / 256 && m[1] == id % 256
            && m[2..12] == [1, 0, 0, 1, 0, 0, 0, 0, 0, 0]
            && m[|m| - 4..] == [qtype / 256, qtype % 256, 0, 1]
  {
    HeaderLayout(id);
    TwoBytes(qtype);
    TwoBytes(1);
    PacketParts(QueryBytes(labels, qtype, id), Header(id, 0x0100, 1, 0, 0, 0), Enc(labels) + [0],
                ToBytes(qtype, 2) + ToBytes(CLASS_IN, 2));
  }

  /** The name in the packet is the one asked for, and ends where the type begins. */
  lemma QueryName(labels: seq<Label>, qtype: nat, id: nat, limit: nat)
    requires Readable(labels) && |labels| < limit
    ensures var m := QueryBytes(labels, qtype, id); |m| >= 4 && Read(m, 12, limit) == Name(labels, |m| - 4)
  {
    PacketParts(QueryBytes(labels, qtype, id), Header(id, 0x0100, 1, 0, 0, 0), Enc(labels) + [0],
                ToBytes(qtype, 2) + ToBytes(CLASS_IN, 2));
    PlainRead(QueryBytes(labels, qtype, id), 12, labels, limit);
  }

  lemma PacketParts(m: seq<byte>, head: seq<byte>, name: seq<byte>, tail: seq<byte>)
    requires |head| == 12 && m == head + (name + tail)
    ensures m[..2] == head[..2] && m[2..12] == head[2..] && At(m, 12, name) && m[|m| - |tail|..] == tail
    ensures m[0] == head[0] && m[1] == head[1]
  {
    assert m[12..12 + |name|] == name;
  }

  lemma HeaderLayout(id: nat)
    requires id < 65536
    ensures Header(id, 0x0100, 1, 0, 0, 0)[..2] == [id / 256, id % 256]
    ensures Header(id, 0x0100, 1, 0, 0, 0)[2..] == [1, 0, 0, 1, 0, 0, 0, 0, 0, 0]
  {
    TwoBytes(id);
    TwoBytes(0x0100);
    TwoBytes(1);
    TwoBytes(0);
  }

  lemma SingleConcat(b: seq<byte>)
    ensures Concat([b]) + (Concat([]) + []) == b
  {
    assert [b][..0] == [];
  }

  lemma OneQuestion(m: seq<byte>, limit: nat, id: nat, b: seq<byte>)
    requires id < 65536 && QuestionLike(m, limit, b) && m == Header(id, 0x0100, 1, 0, 0, 0) + b
    ensures Parse(m, limit) == Ok(Response(id, 0, 1, 0, []))
  {
    SingleConcat(b);
    ParseParts(m, limit, id, 0x0100, [b], [], 0, 0, [], []);
  }
}
