/**
  A decoder written from RFC 1035 rather than from the program: names may be compressed
  (section 4.1.4), a pointer leads strictly backwards, and a resource record is name, type,
  class, ttl, length and data (section 4.1.3).
 */
module DnsReference {
  import opened Wrappers
  import opened DnsWire
  import opened DnsParser
  import opened DnsResolver
  import opened DnsServer
  import opened DnsNames
  import opened DnsProperties
  import DnsLoader

  /** The labels of the name at `loc` and the position after it. Pointers lead below `limit`. */
  function RefName(b: octets, loc: nat, limit: nat): Option<(seq<octets>, nat)>
    decreases limit, |b| - loc
  {
    if loc >= |b| then None
    else if b[loc] == 0 then Some(([], loc + 1))
    else if b[loc] & 0xC0 == 0 then
      var end := loc + 1 + Val(b[loc]);
      if end > |b| then None
      else
        match RefName(b, end, limit)
        case None => None
        case Some((names, next)) => Some(([b[loc + 1..end]] + names, next))
    else if b[loc] & 0xC0 == 0xC0 && loc + 1 < |b| then
      var target := Val16(Word(b[loc] & 0x3F, b[loc + 1]));
      if target >= limit then None
      else
        match RefName(b, target, target)
        case None => None
        case Some((names, _)) => Some((names, loc + 2))
    else None
  }

  datatype RefRecord = RefRecord(name: seq<octets>, rtype: bv16, rclass: bv16, ttl: bv32, rdata: octets, next: nat)

  function RefResource(b: octets, loc: nat): Option<RefRecord> {
    match RefName(b, loc, loc)
    case None => None
    case Some((names, at)) =>
      if at + 10 > |b| then None
      else
        var end := at + 10 + Val16(WordAt(b, at + 8));
        if end > |b| then None
        else Some(RefRecord(names, WordAt(b, at), WordAt(b, at + 2), Word32(b[at + 4..at + 8]), b[at + 10..end], end))
  }

  /** Labels within the 63 octets of section 2.3.4. */
  predicate LegalSizes(labels: seq<Label>) {
    forall i :: 0 <= i < |labels| ==> labels[i].size < 64
  }

  lemma PlainLength(x: bv8)
    ensures x < 64 <==> x & 0xC0 == 0
  {
  }

  /** The decoder never yields a label of more than 63 bytes. */
  lemma {:induction false} RefNamesShort(b: octets, loc: nat, limit: nat)
    requires RefName(b, loc, limit).Some?
    ensures forall i :: 0 <= i < |RefName(b, loc, limit).value.0| ==> |RefName(b, loc, limit).value.0[i]| < 64
    decreases limit, |b| - loc
  {
    if b[loc] == 0 {
    } else if b[loc] & 0xC0 == 0 {
      PlainLength(b[loc]);
      RefNamesShort(b, loc + 1 + Val(b[loc]), limit);
    } else {
      var target := Val16(Word(b[loc] & 0x3F, b[loc + 1]));
      RefNamesShort(b, target, target);
    }
  }

  lemma {:induction false} PlainNameDecodes(b: octets, loc: nat, limit: nat)
    requires ReadName(b, loc).Some? && LegalSizes(ReadName(b, loc).value.0)
    ensures var (labels, next) := ReadName(b, loc).value;
            RefName(b, loc, limit) == Some((Names(labels), next))
    decreases |b| - loc
  {
    hide Val;
    var (labels, next) := ReadName(b, loc).value;
    if b[loc] == 0 {
      assert Names(labels) == [];
    } else {
      var end := loc + 1 + Val(b[loc]);
      var tail := ReadName(b, end).value.0;
      assert labels == [Label(b[loc], b[loc + 1..end])] + tail;
      assert forall i :: 0 <= i < |tail| ==> tail[i] == labels[i + 1];
      assert labels[0].size == b[loc];
      PlainNameDecodes(b, end, limit);
      PlainLength(b[loc]);
      NamesTail(labels);
      assert labels[1..] == tail;
    }
  }

  lemma LongSize(x: bv8)
    ensures Val(x) < 64 <==> x < 64
  {
  }

  /** No name the decoder yields is that of labels one of which is too long. */
  lemma LongLabelNotDecoded(b: octets, loc: nat, limit: nat, labels: seq<Label>)
    requires LabelsOk(labels) && !LegalSizes(labels) && RefName(b, loc, limit).Some?
    ensures RefName(b, loc, limit).value.0 != Names(labels)
  {
    hide RefName, Val;
    var i :| 0 <= i < |labels| && labels[i].size >= 64;
    assert LabelOk(labels[i]);
    LongSize(labels[i].size);
    RefNamesShort(b, loc, limit);
    assert Names(labels)[i] == labels[i].name;
  }

  /** Where the program reads a name, the decoder reads the same labels up to the same place
      exactly when no label has more than 63 bytes. */
  lemma PlainNameAgrees(b: octets, loc: nat, limit: nat)
    requires ReadName(b, loc).Some?
    ensures var (labels, next) := ReadName(b, loc).value;
            RefName(b, loc, limit) == Some((Names(labels), next)) <==> LegalSizes(labels)
  {
    hide RefName, ReadName, LegalSizes, LabelsOk;
    EncodeOfRead(b, loc);
    if LegalSizes(ReadName(b, loc).value.0) {
      PlainNameDecodes(b, loc, limit);
    } else if RefName(b, loc, limit).Some? {
      LongLabelNotDecoded(b, loc, limit, ReadName(b, loc).value.0);
    }
  }

  lemma PointerIsTwelve()
    ensures 0xC0 as bv8 & 0xC0 == 0xC0 && Val16(Word(0xC0 as bv8 & 0x3F, 0x0C)) == 12
  {
    assert Word(0xC0 as bv8 & 0x3F, 0x0C) == 12;
    assert Val16(12) == 12;
  }

  /** The name 0xC0 0x0C is whatever name stands at offset 12. */
  lemma PointerFollowed(b: octets, loc: nat)
    requires 12 < loc && loc + 2 <= |b| && b[loc] == 0xC0 && b[loc + 1] == 0x0C
    ensures RefName(b, loc, loc)
            == match RefName(b, 12, 12)
               case None => None
               case Some((names, _)) => Some((names, loc + 2))
  {
    PointerIsTwelve();
  }

  /** The fields of any record written are read back where RFC 1035 puts them. */
  lemma ResourceFields(b: octets, at: nat, a: Resource)
    requires |a.name| >= 2 && at + |AnswerBytes(a)| == |b| && b[at..] == AnswerBytes(a)
    ensures b[at] == a.name[0] && b[at + 1] == a.name[1]
    ensures at + 12 <= |b| && WordAt(b, at + 2) == a.rtype && WordAt(b, at + 4) == a.rclass
    ensures Word32(b[at + 6..at + 10]) == a.ttl && WordAt(b, at + 10) == a.rdlength && b[at + 12..] == a.rdata
  {
    hide High, Low, Word, Word32, Bytes32;
    var w := AnswerBytes(a);
    assert forall i :: 0 <= i < 12 ==> b[at + i] == b[at..][i] == w[i];
    WordOfHalves(a.rtype);
    WordOfHalves(a.rclass);
    WordOfHalves(a.rdlength);
    Word32OfBytes(a.ttl);
    assert b[at + 6..at + 10] == w[6..10] == Bytes32(a.ttl);
    assert b[at + 12..] == w[12..];
  }

  lemma AnswerFields(b: octets, at: nat, r: Record)
    requires |r.ip| == 4 && at + 16 == |b| && b[at..] == AnswerBytes(Answer(r))
    ensures b[at] == 0xC0 && b[at + 1] == 0x0C
    ensures WordAt(b, at + 2) == TYPE_A && WordAt(b, at + 4) == CLASS_IN && Word32(b[at + 6..at + 10]) == 0
    ensures Val16(WordAt(b, at + 10)) == 4 && b[at + 12..at + 16] == r.ip
  {
    hide Word32, WordAt, AnswerBytes;
    ResourceFields(b, at, Answer(r));
    FourIsFour();
    assert b[at + 12..at + 16] == b[at + 12..];
  }

  /** A successful response decodes, by the rules of RFC 1035, to one A record of class IN for
      exactly the name that was asked, with ttl 0 and the address bytes of the first record of
      that name, and ends with it, if and only if no label asked has more than 63 bytes. */
  lemma AnswerDecodes(b: octets, records: seq<Record>)
    requires RecordsOk(records) && ServeOne(b, records).Reply? && |ServeOne(b, records).data| >= 12
    requires ReadHeader(ServeOne(b, records).data).flags.rcode == 0
    ensures QuestionOutcome(b, 12).Done?
    ensures var out, labels := ServeOne(b, records).data, QuestionOutcome(b, 12).value.0.labels;
            && FindRecord(records, DottedName(labels)).Some?
            && (RefName(out, 12, 12) == Some((Names(labels), QuestionEnd(b) - 4)) <==> LegalSizes(labels))
            && (RefResource(out, QuestionEnd(b))
                == Some(RefRecord(Names(labels), TYPE_A, CLASS_IN, 0,
                                  FindRecord(records, DottedName(labels)).value.ip, |out|))
                <==> LegalSizes(labels))
  {
    hide ParseMessage, RecordsOk, DottedName, FindRecord, RefName, ReadHeader, ServeOne, HeaderBytes,
         AnswerBytes, ReadName, LabelsAt, Word, Word32, Val16, High, Low, LegalSizes, LabelsOk;
    ReplyEchoesQuery(b, records);
    ReplyParts(b, records);
    var out, k := ServeOne(b, records).data, QuestionEnd(b);
    var (labels, next) := LabelsOutcome(b, 12).value;
    var r := Verdict(b, records).1.value;
    FoundOk(records, DottedName(labels));
    AnswerLength(r);
    assert out[k..] == AnswerBytes(Answer(r));
    QuestionCopied(b, out, k);
    PlainNameAgrees(out, 12, 12);
    AnswerFields(out, k, r);
    PointerFollowed(out, k);
    assert out[k + 12..k + 16] == out[k + 12..|out|];
    if !LegalSizes(labels) && RefName(out, 12, 12).Some? {
      EncodeOfRead(out, 12);
      LongLabelNotDecoded(out, 12, 12, labels);
    }
  }

  /** Byte strings that agree on a range agree on its beginning. */
  lemma SamePart(b: octets, out: octets, lo: nat, hi: nat, mid: nat)
    requires lo <= mid <= hi <= |b| && hi <= |out| && out[lo..hi] == b[lo..hi]
    ensures out[lo..mid] == b[lo..mid]
  {
    assert b[lo..mid] == b[lo..hi][..mid - lo];
    assert out[lo..hi][..mid - lo] == out[lo..mid];
  }

  lemma QuestionCopied(b: octets, out: octets, k: nat)
    requires QuestionOutcome(b, 12).Done? && k == QuestionEnd(b)
    requires 12 < k <= |b| && k <= |out| && out[12..k] == b[12..k]
    ensures ReadName(out, 12) == Some(LabelsOutcome(b, 12).value)
    ensures LabelsOutcome(b, 12).Done? && LabelsOutcome(b, 12).value.1 == k - 4
  {
    hide ReadName, EncodeName, LabelsAt;
    LabelLoopIff(b, 12);
    var (labels, next) := LabelsOutcome(b, 12).value;
    SamePart(b, out, 12, k, next);
    assert out == out[..12] + out[12..next] + out[next..];
    ReadOfEncoded(out[..12], labels, out[next..]);
  }

  lemma {:induction false} LoadedRecordsOk(lines: seq<octets>, inetAddr: octets -> DnsLoader.Ipv4)
    ensures DnsLoader.TableOf(lines, inetAddr).Some? ==> RecordsOk(DnsLoader.TableOf(lines, inetAddr).value)
  {
    hide DnsLoader.ExtractIpv4;
    if lines != [] {
      LoadedRecordsOk(lines[1..], inetAddr);
    }
  }

  /** The records the server loads from a well-formed file. */
  function Loaded(lines: seq<DnsLoader.Line>, inetAddr: octets -> DnsLoader.Ipv4): (records: seq<Record>)
    requires forall i :: 0 <= i < |lines| ==> DnsLoader.LineOk(lines[i])
    ensures DnsLoader.TableOf(DnsLoader.Text(lines), inetAddr) == Some(records)
    ensures RecordsOk(records)
  {
    DnsLoader.TableOfLines(lines, inetAddr);
    LoadedRecordsOk(DnsLoader.Text(lines), inetAddr);
    DnsLoader.TableOf(DnsLoader.Text(lines), inetAddr).value
  }

  /** From the file to the wire: some line has the name that was asked, and the address that a
      successful response carries, decoded by RFC 1035, is that of the first such line, if and
      only if no label asked has more than 63 bytes. */
  lemma AnswerIsFirstLine(b: octets, lines: seq<DnsLoader.Line>, inetAddr: octets -> DnsLoader.Ipv4)
    requires forall i :: 0 <= i < |lines| ==> DnsLoader.LineOk(lines[i])
    requires ServeOne(b, Loaded(lines, inetAddr)).Reply? && |ServeOne(b, Loaded(lines, inetAddr)).data| >= 12
    requires ReadHeader(ServeOne(b, Loaded(lines, inetAddr)).data).flags.rcode == 0
    ensures QuestionOutcome(b, 12).Done?
    ensures var out, labels := ServeOne(b, Loaded(lines, inetAddr)).data, QuestionOutcome(b, 12).value.0.labels;
            var line := DnsLoader.FirstLine(lines, DottedName(labels));
            line.Some?
            && (RefResource(out, QuestionEnd(b))
                == Some(RefRecord(Names(labels), TYPE_A, CLASS_IN, 0, inetAddr(line.value), |out|))
                <==> LegalSizes(labels))
  {
    hide ServeOne, ReadHeader, RefResource, QuestionEnd, LegalSizes, DottedName, FindRecord, QuestionOutcome,
         DnsLoader.TableOf, DnsLoader.Text, DnsLoader.FirstLine;
    AnswerDecodes(b, Loaded(lines, inetAddr));
    DnsLoader.LookupIsFirstLine(lines, inetAddr, DottedName(QuestionOutcome(b, 12).value.0.labels));
  }
}
