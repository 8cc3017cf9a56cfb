/**
  Names as text: the string side of `encode_qname`, `build_query` and `read_name` in
  os_net/comp_networking/examples/dns_query.py.
*/
module DnsText {
  import opened Bytes
  import opened DnsName
  import opened DnsMessage
  import opened Strings

  function NonEmpty(parts: seq<string>): seq<string> {
    if parts == [] then []
    else if parts[0] == "" then NonEmpty(parts[1..])
    else [parts[0]] + NonEmpty(parts[1..])
  }

  predicate Ascii(s: string) { forall i :: 0 <= i < |s| ==> s[i] as int < 128 }

  /** `label.encode("ascii")` */
  function ToLabel(s: string): (l: Label)
    requires Ascii(s)
    ensures |l| == |s| && forall i :: 0 <= i < |s| ==> l[i] == s[i] as int
  {
    if s == "" then [] else [s[0] as int] + ToLabel(s[1..])
  }

  /** `label.decode("ascii", "replace")` */
  function FromLabel(l: Label): (s: string)
    ensures |s| == |l| && forall i :: 0 <= i < |l| ==> s[i] == if l[i] < 128 then l[i] as char else '\U{FFFD}'
  {
    if l == [] then "" else [if l[0] < 128 then l[0] as char else '\U{FFFD}'] + FromLabel(l[1..])
  }

  /** What `read_name` returns for these labels. */
  function Text(labels: seq<Label>): string { Join(Texts(labels), '.') }

  function Texts(labels: seq<Label>): seq<string> {
    if labels == [] then [] else [FromLabel(labels[0])] + Texts(labels[1..])
  }

  /** A label that can be written: ASCII, and its length fits a byte. */
  predicate Writable(s: string) { Ascii(s) && |s| < 256 }

  ghost predicate AllWritable(parts: seq<string>) { forall i :: 0 <= i < |parts| ==> Writable(parts[i]) }

  function Labels(parts: seq<string>): (ls: seq<Label>)
    requires AllWritable(parts)
    ensures |ls| == |parts| && forall i :: 0 <= i < |parts| ==> ls[i] == ToLabel(parts[i])
  {
    if parts == [] then [] else [ToLabel(parts[0])] + Labels(parts[1..])
  }

  /** The encoded name, or the exception: not ASCII, or too long for its length byte. */
  datatype Encoded = Encoded(bytes: seq<byte>) | UnicodeError | ValueError

  /** The first label that cannot be written, or -1. */
  ghost function Fault(parts: seq<string>): (k: int)
    ensures -1 <= k < |parts|
  {
    if parts == [] then -1
    else if !Writable(parts[0]) then 0
    else if Fault(parts[1..]) < 0 then -1
    else Fault(parts[1..]) + 1
  }

  lemma {:induction false} FaultPasses(parts: seq<string>, k: nat)
    requires k <= |parts| && AllWritable(parts[..k])
    ensures Fault(parts) == if Fault(parts[k..]) < 0 then -1 else k + Fault(parts[k..])
  {
    if k > 0 {
      assert parts[..k][0] == parts[0];
      assert parts[1..][..k - 1] == parts[..k][1..] && parts[1..][k - 1..] == parts[k..];
      FaultPasses(parts[1..], k - 1);
    }
  }

  lemma WritableCons(l: string, rest: seq<string>)
    ensures AllWritable([l] + rest) <==> Writable(l) && AllWritable(rest)
  {
    var all := [l] + rest;
    if AllWritable(all) {
      assert Writable(all[0]);
      forall i | 0 <= i < |rest|
        ensures Writable(rest[i])
      {
        assert Writable(all[i + 1]);
      }
    }
  }

  /** The empty labels, which are skipped, could be written. */
  lemma {:induction false} NoFault(parts: seq<string>)
    ensures AllWritable(NonEmpty(parts)) <==> Fault(parts) == -1
  {
    if parts != [] {
      var rest := parts[1..];
      NoFault(rest);
      if parts[0] == "" {
        assert Writable("");
      } else {
        WritableCons(parts[0], NonEmpty(rest));
      }
    }
  }

  /** At most 255 characters, all below 128. */
  predicate Fits(s: string) { |s| <= 255 && forall i :: 0 <= i < |s| ==> s[i] < 128 as char }

  lemma {:induction false} NoFaultFits(parts: seq<string>)
    ensures Fault(parts) == -1 <==> forall k :: 0 <= k < |parts| ==> Fits(parts[k])
  {
    if parts != [] {
      NoFaultFits(parts[1..]);
      assert Fits(parts[0]) <==> Writable(parts[0]);
      if Fault(parts) == -1 {
        forall k | 0 <= k < |parts|
          ensures Fits(parts[k])
        {
          if k > 0 { assert parts[1..][k - 1] == parts[k]; }
        }
      }
      if forall k :: 0 <= k < |parts| ==> Fits(parts[k]) {
        forall k | 0 <= k < |parts[1..]|
          ensures Fits(parts[1..][k])
        {
          assert parts[1..][k] == parts[k + 1];
        }
      }
    }
  }

  lemma {:induction false} EncSnoc(labels: seq<Label>, l: Label)
    requires |l| < 256 && forall i :: 0 <= i < |labels| ==> |labels[i]| < 256
    ensures Enc(labels + [l]) == Enc(labels) + ([|l|] + l)
  {
    if labels == [] {
      assert labels + [l] == [l] && [l][1..] == [];
    } else {
      assert (labels + [l])[1..] == labels[1..] + [l];
      EncSnoc(labels[1..], l);
    }
  }

  lemma {:induction false} NonEmptySnoc(parts: seq<string>, p: string)
    ensures NonEmpty(parts + [p]) == if p == "" then NonEmpty(parts) else NonEmpty(parts) + [p]
  {
    if parts == [] {
      assert parts + [p] == [p];
    } else {
      assert (parts + [p])[1..] == parts[1..] + [p];
      NonEmptySnoc(parts[1..], p);
    }
  }

  lemma OneMore(before: seq<string>, l: string)
    requires AllWritable(before) && Writable(l)
    ensures AllWritable(before + [l])
    ensures Enc(Labels(before + [l])) == Enc(Labels(before)) + [|l|] + ToLabel(l)
  {
    assert Labels(before + [l]) == Labels(before) + [ToLabel(l)];
    EncSnoc(Labels(before), ToLabel(l));
  }

  lemma Extended(parts: seq<string>, k: nat)
    requires k < |parts|
    ensures NonEmpty(parts[..k + 1]) == if parts[k] == "" then NonEmpty(parts[..k]) else NonEmpty(parts[..k]) + [parts[k]]
  {
    assert parts[..k + 1] == parts[..k] + [parts[k]];
    NonEmptySnoc(parts[..k], parts[k]);
  }

  lemma FaultHere(parts: seq<string>, k: nat)
    requires k < |parts| && AllWritable(parts[..k]) && !Writable(parts[k])
    ensures Fault(parts) == k
  {
    FaultPasses(parts, k);
    assert parts[k..][0] == parts[k];
  }

  /** `encode_qname` */
  method EncodeQname(name: string) returns (r: Encoded)
    ensures r.Encoded? <==> AllWritable(NonEmpty(Split(name, '.')))
    ensures r.Encoded? ==> r.bytes == Enc(Labels(NonEmpty(Split(name, '.')))) + [0]
    ensures r.Encoded? <==> Fault(Split(name, '.')) == -1
    ensures !r.Encoded? ==> (r.UnicodeError? <==> !Ascii(Split(name, '.')[Fault(Split(name, '.'))]))
    ensures r.Encoded? <==> forall k :: 0 <= k < |Split(name, '.')| ==> Fits(Split(name, '.')[k])
  {
    var parts := Split(name, '.');
    NoFault(parts);
    NoFaultFits(parts);
    var out: seq<byte> := [];
    for k := 0 to |parts|
      invariant Written(parts, k, out)
    {
      var l := parts[k];
      if l != "" {
        if !Ascii(l) {
          FaultHere(parts, k);
          return UnicodeError;
        }
        if |l| > 255 {
          FaultHere(parts, k);
          return ValueError;
        }
      }
      WriteOne(parts, k, out);
      if l != "" {
        out := out + [|l|] + ToLabel(l);
      }
    }
    assert parts[..|parts|] == parts;
    FaultPasses(parts, |parts|);
    r := Encoded(out + [0]);
  }

  /** The first k labels are written. */
  ghost predicate Written(parts: seq<string>, k: nat, out: seq<byte>) {
    && k <= |parts| && AllWritable(parts[..k]) && AllWritable(NonEmpty(parts[..k]))
    && out == Enc(Labels(NonEmpty(parts[..k])))
  }

  lemma WriteOne(parts: seq<string>, k: nat, out: seq<byte>)
    requires k < |parts| && Written(parts, k, out) && Writable(parts[k])
    ensures Written(parts, k + 1, if parts[k] == "" then out else out + [|parts[k]|] + ToLabel(parts[k]))
  {
    Extended(parts, k);
    assert parts[..k + 1] == parts[..k] + [parts[k]];
    if parts[k] != "" { OneMore(NonEmpty(parts[..k]), parts[k]); }
  }

  lemma {:induction false} TextsOfLabels(parts: seq<string>)
    requires AllWritable(parts)
    ensures Texts(Labels(parts)) == parts
  {
    if parts != [] {
      TextsOfLabels(parts[1..]);
      assert Labels(parts)[1..] == Labels(parts[1..]);
      var l := ToLabel(parts[0]);
      assert FromLabel(l) == parts[0];
    }
  }

  lemma {:induction false} NonEmptyAll(parts: seq<string>)
    requires forall i :: 0 <= i < |parts| ==> parts[i] != ""
    ensures NonEmpty(parts) == parts
  {
    if parts != [] { NonEmptyAll(parts[1..]); }
  }

  /** Text to bytes to text: `read_name` gives back the name with its empty labels dropped, hence
      the name itself if it has none, for at most 127 labels of at most 191 characters. */
  lemma TextRoundTrip(m: seq<byte>, off: nat, name: string)
    requires AllWritable(NonEmpty(Split(name, '.')))
    requires At(m, off, Enc(Labels(NonEmpty(Split(name, '.')))) + [0])
    requires Readable(Labels(NonEmpty(Split(name, '.')))) && |NonEmpty(Split(name, '.'))| <= 127
    ensures Read(m, off, MAX_STEPS).Name?
    ensures Text(Read(m, off, MAX_STEPS).labels) == Join(NonEmpty(Split(name, '.')), '.')
    ensures (forall i :: 0 <= i < |Split(name, '.')| ==> Split(name, '.')[i] != "") ==>
              Text(Read(m, off, MAX_STEPS).labels) == name
  {
    var parts := NonEmpty(Split(name, '.'));
    PlainRead(m, off, Labels(parts), MAX_STEPS);
    TextsOfLabels(parts);
    JoinSplit(name, '.');
    if forall i :: 0 <= i < |Split(name, '.')| ==> Split(name, '.')[i] != "" {
      NonEmptyAll(Split(name, '.'));
    }
  }

  datatype Query = Query(packet: seq<byte>) | BadName(error: Encoded) | StructError

  /** `build_query` for a given transaction id; `struct.pack` refuses fields above 65535. */
  method BuildQuery(name: string, qtype: nat, id: nat) returns (r: Query)
    ensures r.Query? <==> id < 65536 && qtype < 65536 && AllWritable(NonEmpty(Split(name, '.')))
    ensures r.BadName? <==> id < 65536 && !AllWritable(NonEmpty(Split(name, '.')))
    ensures r.BadName? ==> var parts := Split(name, '.');
              Fault(parts) >= 0 && r.error == if Ascii(parts[Fault(parts)]) then ValueError else UnicodeError
    ensures r.Query? ==> r.packet == QueryBytes(Labels(NonEmpty(Split(name, '.'))), qtype, id)
    ensures r.Query? && Readable(Labels(NonEmpty(Split(name, '.')))) && |NonEmpty(Split(name, '.'))| <= 127 ==>
              Parse(r.packet, MAX_STEPS) == Ok(Response(id, 0, 1, 0, []))
  {
    if id >= 65536 {
      return StructError;
    }
    var header := Header(id, 0x0100, 1, 0, 0, 0);
    var qname := EncodeQname(name);
    if !qname.Encoded? {
      return BadName(qname);
    }
    if qtype >= 65536 {
      return StructError;
    }
    ghost var labels := Labels(NonEmpty(Split(name, '.')));
    if Readable(labels) && |labels| < MAX_STEPS {
      QueryParses(labels, qtype, id, MAX_STEPS);
    }
    r := Query(header + (qname.bytes + (ToBytes(qtype, 2) + ToBytes(CLASS_IN, 2))));
  }
}
