/**
  Names in DNS messages: `encode_qname` and `read_name` of
  os_net/comp_networking/examples/dns_query.py, against section 4.1.4 of RFC 1035.
  A label is its bytes. The test `length & 0xC0 == 0xC0` on a byte is `length >= 0xC0`.
*/
module DnsName {
  import opened Bytes

  type Label = seq<byte>

  /** A name and the offset just after it, or the exception that `read_name` raises: an index past
      the message, or more than 128 loop steps. */
  datatype ReadResult = Name(labels: seq<Label>, next: nat) | IndexError | LabelLimit

  const MAX_STEPS: nat := 128

  // ---------- encoding ----------

  /** Length-prefixed labels, without an end mark. */
  function Enc(labels: seq<Label>): seq<byte>
    requires forall i :: 0 <= i < |labels| ==> |labels[i]| < 256
  {
    if labels == [] then [] else [|labels[0]|] + labels[0] + Enc(labels[1..])
  }

  /** Labels that `read_name` can take for labels. */
  predicate Readable(labels: seq<Label>) {
    forall i :: 0 <= i < |labels| ==> 0 < |labels[i]| < 0xC0
  }

  // ---------- reading ----------

  /** What `read_name` computes with `fuel` loop steps left. */
  function Read(m: seq<byte>, off: nat, fuel: nat): ReadResult
    decreases fuel
  {
    if fuel == 0 then LabelLimit
    else if off >= |m| then IndexError
    else if m[off] >= 0xC0 then
      if off + 1 >= |m| then IndexError
      else Jumped(Read(m, Target(m, off), fuel - 1), off + 2)
    else if m[off] == 0 then Name([], off + 1)
    else Prepend([Slice(m, off + 1, m[off])], Read(m, off + 1 + m[off], fuel - 1))
  }

  /** The 14-bit offset of a compression pointer. */
  function Target(m: seq<byte>, off: nat): nat
    requires off + 1 < |m| && m[off] >= 0xC0
  {
    var high: int := m[off];
    (high - 0xC0) * 256 + m[off + 1]
  }

  /** `m[off:off + n]`, which Python cuts short at the end of the message. */
  function Slice(m: seq<byte>, off: nat, n: nat): (s: seq<byte>)
    ensures off + n <= |m| ==> s == m[off..off + n]
  {
    if off + n <= |m| then m[off..off + n] else if off <= |m| then m[off..] else []
  }

  function Jumped(r: ReadResult, next: nat): ReadResult {
    if r.Name? then Name(r.labels, next) else r
  }

  function Prepend(labels: seq<Label>, r: ReadResult): ReadResult {
    if r.Name? then Name(labels + r.labels, r.next) else r
  }

  /** `read_name`. On any bytes at all, cyclic pointers included, it stops. */
  method ReadName(m: seq<byte>, start: nat) returns (r: ReadResult)
    ensures r == Read(m, start, MAX_STEPS) && MAX_STEPS == 128
  {
    r := ReadWithin(m, start, MAX_STEPS);
  }

  /** Its loop, for any number of steps. */
  method ReadWithin(m: seq<byte>, start: nat, limit: nat) returns (r: ReadResult)
    ensures r == Read(m, start, limit)
  {
    var offset: nat, after: nat, guard: nat := start, start, 0;
    var labels: seq<Label>, jumped := [], false;
    while true
      invariant guard <= limit
      invariant Read(m, start, limit) == Continue(labels, jumped, after, Read(m, offset, limit - guard))
      decreases limit - guard
    {
      ghost var now := Read(m, offset, limit - guard);
      guard := guard + 1;
      if guard > limit {
        return LabelLimit;
      }
      if offset >= |m| {
        return IndexError;
      }
      var length := m[offset];
      if length >= 0xC0 {
        if offset + 1 >= |m| {
          return IndexError;
        }
        assert now == Jumped(Read(m, Target(m, offset), limit - guard), offset + 2);
        if !jumped {
          after := offset + 2;
        }
        offset := Target(m, offset);
        jumped := true;
      } else if length == 0 {
        if !jumped {
          after := offset + 1;
        }
        assert labels + [] == labels;
        return Name(labels, after);
      } else {
        offset := offset + 1;
        ghost var inner := Read(m, offset + length, limit - guard);
        assert now == Prepend([Slice(m, offset, length)], inner);
        Regroup(labels, Slice(m, offset, length), inner);
        labels := labels + [Slice(m, offset, length)];
        offset := offset + length;
      }
    }
  }

  /** What the loop's variables make of the rest of the walk. */
  ghost function Continue(labels: seq<Label>, jumped: bool, after: nat, r: ReadResult): ReadResult {
    if r.Name? then Name(labels + r.labels, if jumped then after else r.next) else r
  }

  lemma Regroup(labels: seq<Label>, l: Label, r: ReadResult)
    ensures r.Name? ==> labels + ([l] + r.labels) == (labels + [l]) + r.labels
  {
  }

  // ---------- an independent account: following labels and pointers ----------

  /** One step of section 4.1.4: past a label, or to where a pointer points. */
  ghost predicate Follows(m: seq<byte>, a: nat, b: nat) {
    && a < |m| && m[a] != 0
    && if m[a] >= 0xC0 then a + 1 < |m| && b == Target(m, a)
       else b == a + 1 + m[a]
  }

  /** The offsets visited from `off` to a zero byte. */
  ghost predicate Walk(m: seq<byte>, off: nat, path: seq<nat>) {
    && path != [] && path[0] == off
    && (forall i :: 0 <= i < |path| - 1 ==> Follows(m, path[i], path[i + 1]))
    && path[|path| - 1] < |m| && m[path[|path| - 1]] == 0
  }

  /** The labels passed on the way. */
  ghost function Spelled(m: seq<byte>, path: seq<nat>): seq<Label>
    requires forall i :: 0 <= i < |path| - 1 ==> Follows(m, path[i], path[i + 1])
  {
    if |path| <= 1 then []
    else
      assert Follows(m, path[0], path[1]);
      var rest := Spelled(m, path[1..]);
      if m[path[0]] >= 0xC0 then rest else [Slice(m, path[0] + 1, m[path[0]])] + rest
  }

  /** The offset after the name in the stream: just past the first pointer, or past the zero byte. */
  ghost function Past(m: seq<byte>, path: seq<nat>): nat
    requires path != [] && forall i :: 0 <= i < |path| - 1 ==> Follows(m, path[i], path[i + 1])
  {
    if |path| == 1 then path[0] + 1
    else
      assert Follows(m, path[0], path[1]);
      if m[path[0]] >= 0xC0 then path[0] + 2 else Past(m, path[1..])
  }

  lemma {:induction false} ReadIsWalk(m: seq<byte>, off: nat, fuel: nat) returns (path: seq<nat>)
    requires Read(m, off, fuel).Name?
    ensures Walk(m, off, path) && |path| <= fuel
    ensures Read(m, off, fuel) == Name(Spelled(m, path), Past(m, path))
    decreases fuel
  {
    if m[off] == 0 {
      path := [off];
    } else {
      var next := if m[off] >= 0xC0 then Target(m, off) else off + 1 + m[off];
      var rest := ReadIsWalk(m, next, fuel - 1);
      path := [off] + rest;
      assert path[1..] == rest;
    }
  }

  lemma {:induction false} WalkIsRead(m: seq<byte>, path: seq<nat>, fuel: nat)
    requires path != [] && Walk(m, path[0], path) && |path| <= fuel
    ensures Read(m, path[0], fuel) == Name(Spelled(m, path), Past(m, path))
    decreases fuel
  {
    if |path| > 1 {
      assert Follows(m, path[0], path[1]);
      assert Walk(m, path[1], path[1..]);
      WalkIsRead(m, path[1..], fuel - 1);
    }
  }

  /** `read_name` returns a name exactly when following labels and pointers reaches a zero byte
      within 128 offsets, and it is the name so spelled. */
  lemma ReadExactly(m: seq<byte>, off: nat, labels: seq<Label>, next: nat)
    ensures Read(m, off, MAX_STEPS) == Name(labels, next) <==>
            exists path :: Walk(m, off, path) && |path| <= 128
                           && Spelled(m, path) == labels && Past(m, path) == next
  {
    if Read(m, off, MAX_STEPS) == Name(labels, next) {
      var path := ReadIsWalk(m, off, MAX_STEPS);
    }
    if path :| Walk(m, off, path) && |path| <= MAX_STEPS && Spelled(m, path) == labels && Past(m, path) == next {
      WalkIsRead(m, path, MAX_STEPS);
    }
  }

  // ---------- reading undoes encoding ----------

  /** The message holds these bytes at this offset. */
  predicate At(m: seq<byte>, off: nat, b: seq<byte>) {
    off + |b| <= |m| && m[off..off + |b|] == b
  }

  lemma AtParts(m: seq<byte>, off: nat, a: seq<byte>, b: seq<byte>)
    requires At(m, off, a + b)
    ensures At(m, off, a) && At(m, off + |a|, b)
  {
    var s := m[off..off + |a + b|];
    assert s[..|a|] == a && s[|a|..] == b;
    assert m[off..off + |a|] == s[..|a|] && m[off + |a|..off + |a| + |b|] == s[|a|..];
  }

  lemma PrependAll(l: Label, rest: seq<Label>, labels: seq<Label>, r: ReadResult)
    requires labels == [l] + rest
    ensures Prepend([l], Prepend(rest, r)) == Prepend(labels, r)
  {
    if r.Name? { assert [l] + (rest + r.labels) == labels + r.labels; }
  }

  lemma ReadLabel(m: seq<byte>, off: nat, fuel: nat, l: Label)
    requires 0 < fuel && off < |m| && 0 < |l| < 0xC0 && m[off] == |l| && Slice(m, off + 1, |l|) == l
    ensures Read(m, off, fuel) == Prepend([l], Read(m, off + 1 + |l|, fuel - 1))
  {
  }

  /** The message holds these labels, length-prefixed, from `off` up to `end`. */
  predicate LabelsAt(m: seq<byte>, off: nat, labels: seq<Label>, end: nat)
    decreases |labels|
  {
    if labels == [] then off == end
    else
      var l := labels[0];
      && off < |m| && m[off] == |l| && Slice(m, off + 1, |l|) == l
      && LabelsAt(m, off + 1 + |l|, labels[1..], end)
  }

  lemma EncSplit(labels: seq<Label>)
    requires labels != [] && forall i :: 0 <= i < |labels| ==> |labels[i]| < 256
    ensures Enc(labels) == [|labels[0]|] + labels[0] + Enc(labels[1..])
    ensures |Enc(labels)| == 1 + |labels[0]| + |Enc(labels[1..])|
  {
  }

  lemma {:induction false} EncodedLabels(m: seq<byte>, off: nat, labels: seq<Label>)
    requires Readable(labels) && At(m, off, Enc(labels))
    ensures LabelsAt(m, off, labels, off + |Enc(labels)|)
    decreases |labels|
  {
    if labels != [] {
      var l, rest := labels[0], labels[1..];
      EncSplit(labels);
      LabelParts(m, off, |l|, l, Enc(rest));
      EncodedLabels(m, off + 1 + |l|, rest);
    }
  }

  /** Reading through encoded labels, whatever follows them. */
  lemma {:induction false} ReadLabels(m: seq<byte>, off: nat, labels: seq<Label>, end: nat, fuel: nat)
    requires Readable(labels) && LabelsAt(m, off, labels, end) && fuel >= |labels|
    ensures Read(m, off, fuel) == Prepend(labels, Read(m, end, fuel - |labels|))
    decreases |labels|
  {
    if labels == [] {
      var r := Read(m, off, fuel);
      assert r.Name? ==> [] + r.labels == r.labels;
    } else {
      var l, rest := labels[0], labels[1..];
      ReadLabel(m, off, fuel, l);
      ReadLabels(m, off + 1 + |l|, rest, end, fuel - 1);
      PrependAll(l, rest, labels, Read(m, end, fuel - |labels|));
    }
  }

  lemma ReadThrough(m: seq<byte>, off: nat, labels: seq<Label>, fuel: nat)
    requires Readable(labels) && At(m, off, Enc(labels)) && fuel >= |labels|
    ensures Read(m, off, fuel) == Prepend(labels, Read(m, off + |Enc(labels)|, fuel - |labels|))
  {
    EncodedLabels(m, off, labels);
    ReadLabels(m, off, labels, off + |Enc(labels)|, fuel);
  }

  lemma AtByte(m: seq<byte>, off: nat, x: byte)
    requires At(m, off, [x])
    ensures off < |m| && m[off] == x
  {
    assert m[off] == m[off..off + 1][0];
  }

  lemma LabelParts(m: seq<byte>, off: nat, n: byte, l: Label, rest: seq<byte>)
    requires At(m, off, [n] + l + rest)
    ensures off < |m| && m[off] == n && Slice(m, off + 1, |l|) == l && At(m, off + 1 + |l|, rest)
  {
    AtParts(m, off, [n] + l, rest);
    AtParts(m, off, [n], l);
    AtByte(m, off, n);
  }

  lemma PlainRead(m: seq<byte>, off: nat, labels: seq<Label>, fuel: nat)
    requires Readable(labels) && |labels| < fuel && At(m, off, Enc(labels) + [0])
    ensures Read(m, off, fuel) == Name(labels, off + |Enc(labels)| + 1)
  {
    AtParts(m, off, Enc(labels), [0]);
    ReadThrough(m, off, labels, fuel);
    AtByte(m, off + |Enc(labels)|, 0);
    assert labels + [] == labels;
  }

  /** A plain name, wherever it stands, is read back exactly if it has at most 127 labels of at most
      191 bytes; beyond that no message makes `read_name` return it. */
  lemma PlainRoundTrip(m: seq<byte>, off: nat, labels: seq<Label>)
    requires forall i :: 0 <= i < |labels| ==> 0 < |labels[i]| < 256
    requires At(m, off, Enc(labels) + [0])
    ensures Read(m, off, MAX_STEPS) == Name(labels, off + |Enc(labels)| + 1)
            <==> |labels| <= 127 && forall i :: 0 <= i < |labels| ==> |labels[i]| <= 191
  {
    if Readable(labels) && |labels| < MAX_STEPS {
      PlainRead(m, off, labels, MAX_STEPS);
    } else if Read(m, off, MAX_STEPS).Name? {
      NamesAreReadable(m, off, MAX_STEPS);
    }
  }

  /** Every name returned has fewer labels than steps, each of 1 to 191 bytes. */
  lemma {:induction false} NamesAreReadable(m: seq<byte>, off: nat, fuel: nat)
    requires Read(m, off, fuel).Name?
    ensures Readable(Read(m, off, fuel).labels) && |Read(m, off, fuel).labels| < fuel
    decreases fuel
  {
    if m[off] != 0 {
      var next := if m[off] >= 0xC0 then Target(m, off) else off + 1 + m[off];
      NamesAreReadable(m, next, fuel - 1);
      if m[off] < 0xC0 { InsideMessage(m, next, fuel - 1); }
    }
  }

  /** A read that succeeds began inside the message. */
  lemma InsideMessage(m: seq<byte>, off: nat, fuel: nat)
    requires Read(m, off, fuel).Name?
    ensures off < |m|
  {
  }

  /** The two bytes of a pointer. */
  function PointerBytes(target: nat): seq<byte>
    requires target < 0x4000
  {
    [0xC0 + target / 256, target % 256]
  }

  /** Read as one 16-bit number they are two ones and the fourteen bits of the offset. */
  lemma PointerValue(target: nat)
    requires target < 0x4000
    ensures FromBytes(PointerBytes(target)) == 49152 + target
  {
    var high: byte, low: byte := 0xC0 + target / 256, target % 256;
    var b := PointerBytes(target);
    assert [high][..0] == [] && FromBytes([]) == 0;
    assert FromBytes([high]) == high;
    assert b[..1] == [high] && b[1] == low;
    assert FromBytes(b) == FromBytes([high]) * 256 + low;
  }

  /** Labels followed by a pointer: reading goes on at the target. */
  lemma ReadPointer(m: seq<byte>, off: nat, labels: seq<Label>, target: nat, fuel: nat)
    requires Readable(labels) && target < 0x4000 && |labels| < fuel
    requires At(m, off, Enc(labels) + PointerBytes(target))
    ensures Read(m, off, fuel) ==
            Prepend(labels, Jumped(Read(m, target, fuel - |labels| - 1), off + |Enc(labels)| + 2))
  {
    AtParts(m, off, Enc(labels), PointerBytes(target));
    ReadThrough(m, off, labels, fuel);
    var end := off + |Enc(labels)|;
    var high: byte, low: byte := 0xC0 + target / 256, target % 256;
    assert PointerBytes(target) == [high] + [low];
    AtParts(m, end, [high], [low]);
    AtByte(m, end, high);
    AtByte(m, end + 1, low);
    assert Target(m, end) == target;
  }

  // ---------- compressed encodings ----------

  /** At `off` stand the first k labels and a pointer. */
  predicate CutAt(m: seq<byte>, off: nat, labels: seq<Label>, k: nat, target: nat) {
    && k <= |labels| && Readable(labels[..k]) && target < 0x4000
    && At(m, off, Enc(labels[..k]) + PointerBytes(target))
  }

  /** At `off` stands an encoding of the labels in the sense of section 4.1.4: all of them and a zero
      byte, or some of them and a pointer to an encoding of the others. `steps` counts the labels,
      the pointers and the zero byte. */
  ghost predicate Encodes(m: seq<byte>, off: nat, labels: seq<Label>, steps: nat)
    decreases steps
  {
    || (steps == |labels| + 1 && Readable(labels) && At(m, off, Enc(labels) + [0]))
    || (exists k: nat, target: nat ::
          CutAt(m, off, labels, k, target) && k < steps && Encodes(m, target, labels[k..], steps - k - 1))
  }

  /** Replacing any tail of a name by a pointer to an encoding of that tail, itself plain or
      compressed, gives the same name, and the offset returned is just after the pointer. */
  lemma {:induction false} CompressedRoundTrip(m: seq<byte>, off: nat, front: seq<Label>, tail: seq<Label>,
                                               target: nat, steps: nat, fuel: nat)
    requires Readable(front) && target < 0x4000 && At(m, off, Enc(front) + PointerBytes(target))
    requires Encodes(m, target, tail, steps) && |front| + 1 + steps <= fuel
    ensures Read(m, off, fuel) == Name(front + tail, off + |Enc(front)| + 2)
    decreases steps, 1
  {
    ReadPointer(m, off, front, target, fuel);
    EncodedRead(m, target, tail, steps, fuel - |front| - 1);
  }

  /** Every encoding is read as what it encodes. */
  lemma {:induction false} EncodedRead(m: seq<byte>, off: nat, labels: seq<Label>, steps: nat, fuel: nat)
    requires Encodes(m, off, labels, steps) && steps <= fuel
    ensures Read(m, off, fuel).Name? && Read(m, off, fuel).labels == labels
    decreases steps, 0
  {
    if steps == |labels| + 1 && Readable(labels) && At(m, off, Enc(labels) + [0]) {
      PlainRead(m, off, labels, fuel);
    } else {
      var k: nat, target: nat :|
        CutAt(m, off, labels, k, target) && k < steps && Encodes(m, target, labels[k..], steps - k - 1);
      CompressedRoundTrip(m, off, labels[..k], labels[k..], target, steps - k - 1, fuel);
      assert labels[..k] + labels[k..] == labels;
    }
  }

  /** One tail replaced by a pointer to its plain encoding. */
  lemma TailReplaced(m: seq<byte>, off: nat, front: seq<Label>, tail: seq<Label>, target: nat)
    requires Readable(front) && Readable(tail) && target < 16384 && |front| + 1 + |tail| <= 127
    requires At(m, off, Enc(front) + PointerBytes(target)) && At(m, target, Enc(tail) + [0])
    ensures Read(m, off, MAX_STEPS) == Name(front + tail, off + |Enc(front)| + 2)
  {
    CompressedRoundTrip(m, off, front, tail, target, |tail| + 1, MAX_STEPS);
  }

  lemma AtJoined(m: seq<byte>, off: nat, a: seq<byte>, b: seq<byte>)
    requires At(m, off, a) && At(m, off + |a|, b)
    ensures At(m, off, a + b)
  {
    assert m[off..off + |a + b|] == m[off..off + |a|] + m[off + |a|..off + |a| + |b|];
  }

  /** A label in front of an encoded name. */
  lemma EncCons(l: Label, rest: seq<Label>, b: seq<byte>)
    requires |l| < 256 && forall i :: 0 <= i < |rest| ==> |rest[i]| < 256
    ensures Enc([l] + rest) + b == ([|l|] + l) + (Enc(rest) + b)
  {
    assert ([l] + rest)[1..] == rest;
  }

  lemma LabelBeforeCut(m: seq<byte>, off: nat, l: Label, rest: seq<Label>, k: nat, target: nat)
    requires 0 < |l| < 0xC0 && At(m, off, [|l|] + l) && CutAt(m, off + 1 + |l|, rest, k, target)
    ensures CutAt(m, off, [l] + rest, k + 1, target) && ([l] + rest)[k + 1..] == rest[k..]
  {
    var labels := [l] + rest;
    AtJoined(m, off, [|l|] + l, Enc(rest[..k]) + PointerBytes(target));
    EncCons(l, rest[..k], PointerBytes(target));
    assert labels[..k + 1] == [l] + rest[..k];
  }

  lemma LabelBefore(m: seq<byte>, off: nat, l: Label, rest: seq<Label>, steps: nat)
    requires 0 < |l| < 0xC0 && At(m, off, [|l|] + l) && Encodes(m, off + 1 + |l|, rest, steps)
    ensures Encodes(m, off, [l] + rest, steps + 1)
  {
    var next := off + 1 + |l|;
    if steps == |rest| + 1 && Readable(rest) && At(m, next, Enc(rest) + [0]) {
      AtJoined(m, off, [|l|] + l, Enc(rest) + [0]);
      EncCons(l, rest, [0]);
    } else {
      var k: nat, target: nat :|
        CutAt(m, next, rest, k, target) && k < steps && Encodes(m, target, rest[k..], steps - k - 1);
      LabelBeforeCut(m, off, l, rest, k, target);
    }
  }

  lemma PointerBefore(m: seq<byte>, off: nat, labels: seq<Label>, steps: nat)
    requires off + 1 < |m| && m[off] >= 0xC0 && Encodes(m, Target(m, off), labels, steps)
    ensures Encodes(m, off, labels, steps + 1)
  {
    var target := Target(m, off);
    assert m[off..off + 2] == [m[off], m[off + 1]] == PointerBytes(target);
    assert labels[..0] == [] && labels[0..] == labels && [] + PointerBytes(target) == PointerBytes(target);
    assert CutAt(m, off, labels, 0, target);
  }

  /** Every name returned stands encoded where it was read. */
  lemma {:induction false} ReadIsEncoded(m: seq<byte>, off: nat, fuel: nat) returns (steps: nat)
    requires Read(m, off, fuel).Name?
    ensures steps <= fuel && Encodes(m, off, Read(m, off, fuel).labels, steps)
    decreases fuel
  {
    if m[off] == 0 {
      steps := 1;
      assert [] + [0] == [0] && m[off..off + 1] == [0];
    } else if m[off] >= 0xC0 {
      var inner := ReadIsEncoded(m, Target(m, off), fuel - 1);
      PointerBefore(m, off, Read(m, off, fuel).labels, inner);
      steps := inner + 1;
    } else {
      var next := off + 1 + m[off];
      var inner := ReadIsEncoded(m, next, fuel - 1);
      InsideMessage(m, next, fuel - 1);
      LabelTaken(m, off, Read(m, next, fuel - 1).labels, inner);
      steps := inner + 1;
    }
  }

  lemma LabelTaken(m: seq<byte>, off: nat, rest: seq<Label>, steps: nat)
    requires off < |m| && 0 < m[off] < 0xC0 && off + 1 + m[off] <= |m| && Encodes(m, off + 1 + m[off], rest, steps)
    ensures Encodes(m, off, [Slice(m, off + 1, m[off])] + rest, steps + 1)
  {
    var l := Slice(m, off + 1, m[off]);
    assert m[off..off + 1 + m[off]] == [m[off]] + l;
    LabelBefore(m, off, l, rest, steps);
  }

  /** A name is given exactly when it stands encoded there in at most `limit` steps: with the limit of
      128, when at most 127 labels and pointers together encode it. */
  lemma ReadIffEncoded(m: seq<byte>, off: nat, labels: seq<Label>, limit: nat)
    ensures (Read(m, off, limit).Name? && Read(m, off, limit).labels == labels)
       <==> exists steps: nat :: steps <= limit && Encodes(m, off, labels, steps)
  {
    if Read(m, off, limit).Name? && Read(m, off, limit).labels == labels {
      var steps := ReadIsEncoded(m, off, limit);
      assert steps <= limit && Encodes(m, off, labels, steps);
    }
    if steps: nat :| steps <= limit && Encodes(m, off, labels, steps) {
      EncodedRead(m, off, labels, steps, limit);
    }
  }
}
