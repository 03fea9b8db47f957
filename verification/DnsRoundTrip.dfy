/**
  The program's own parser against its serializer: they are inverse on header and question;
  on a successful response the parser fails, because it does not know compression pointers.
 */
module DnsRoundTrip {
  import opened Wrappers
  import opened DnsWire
  import opened DnsParser
  import opened DnsResolver
  import opened DnsServer
  import opened DnsProperties
  import DnsNames
  import DnsReference

  lemma WordsReadBack(before: octets, w: bv16, rest: octets)
    ensures WordAt(before + Bytes16(w) + rest, |before|) == w
  {
    hide High, Low, Word;
    WordOfHalves(w);
  }

  /** A question between any bytes is read back as it was, exactly when the label loop has room for
      its labels. */
  lemma QuestionBetween(before: octets, q: Question, tail: octets)
    requires LabelsOk(q.labels)
    ensures var out, loc := before + QuestionBytes(q) + tail, |before|;
            && ReadName(out, loc) == Some((q.labels, loc + |EncodeName(q.labels)|))
            && QuestionOutcome(out, loc)
               == if |q.labels| <= LABEL_ROOM then Done((q, loc + |QuestionBytes(q)|)) else Overrun
  {
    hide EncodeName, ReadName, Bytes16, WordAt, LabelsAt;
    var out, loc, name := before + QuestionBytes(q) + tail, |before|, EncodeName(q.labels);
    assert out == before + name + (Bytes16(q.qtype) + Bytes16(q.qclass) + tail);
    ReadOfEncoded(before, q.labels, Bytes16(q.qtype) + Bytes16(q.qclass) + tail);
    LabelsCounted(out, loc);
    assert out == (before + name) + Bytes16(q.qtype) + (Bytes16(q.qclass) + tail);
    WordsReadBack(before + name, q.qtype, Bytes16(q.qclass) + tail);
    assert out == (before + name + Bytes16(q.qtype)) + Bytes16(q.qclass) + tail;
    WordsReadBack(before + name + Bytes16(q.qtype), q.qclass, tail);
  }

  /** A header and a question in front of any bytes are read back as they were, the question
      exactly when the label loop has room for its labels. */
  lemma QuestionWritten(h: Header, q: Question, tail: octets)
    requires FlagsInRange(h.flags) && LabelsOk(q.labels)
    ensures var out := HeaderBytes(h) + QuestionBytes(q) + tail;
            && ReadHeader(out) == h
            && ReadName(out, 12) == Some((q.labels, 12 + |EncodeName(q.labels)|))
            && QuestionOutcome(out, 12)
               == if |q.labels| <= LABEL_ROOM then Done((q, 12 + |QuestionBytes(q)|)) else Overrun
  {
    hide HeaderBytes, QuestionBytes, ReadName, EncodeName, ReadHeader, QuestionOutcome, LabelsOk;
    HeaderRoundTrip(h, QuestionBytes(q) + tail);
    assert HeaderBytes(h) + QuestionBytes(q) + tail == HeaderBytes(h) + (QuestionBytes(q) + tail);
    QuestionBetween(HeaderBytes(h), q, tail);
  }

  /** The header of every serialized message is read back as it was, and so is the question,
      if and only if it has at most the 160 labels the label loop has room for. */
  lemma ParseOfSerialized(m: Message)
    requires Serializable(m) && FlagsInRange(m.header.flags)
    ensures |Serialize(m)| >= 12 && ReadHeader(Serialize(m)) == m.header
    ensures QuestionOutcome(Serialize(m), 12) == Done((m.questions[0], 12 + |QuestionBytes(m.questions[0])|))
            <==> |m.questions[0].labels| <= LABEL_ROOM
    ensures QuestionOutcome(Serialize(m), 12).Done? <==> |m.questions[0].labels| <= LABEL_ROOM
  {
    hide HeaderBytes, QuestionBytes, ReadHeader, AnswerBytes, Val16, LabelsOk;
    var tail := if m.header.flags.rcode != 0 then [] else AnswerBytes(m.answers[0]);
    QuestionWritten(m.header, m.questions[0], tail);
  }

  /** Header and first question of every parsed message are written back as they were. */
  lemma SerializeOfParsed(b: octets)
    requires ParseMessage(b).Done? && ParseMessage(b).value.questions != []
    ensures QuestionOutcome(b, 12).Done? && 12 < QuestionEnd(b) <= |b|
    ensures var m := ParseMessage(b).value;
            HeaderBytes(m.header) + QuestionBytes(m.questions[0]) == b[..QuestionEnd(b)]
  {
    hide ParseMessage, QuestionBytes, HeaderBytes, QuestionOutcome, ReadHeader, QuestionEnd;
    ParsedLabels(b);
    QuestionBytesAre(b);
    BytesOfHeader(b);
    assert b[..QuestionEnd(b)] == b[..12] + b[12..QuestionEnd(b)];
  }

  /** A response without an answer parses to exactly the message that was serialized, if and
      only if its question has at most 160 labels. */
  lemma ErrorResponseParses(m: Message)
    requires Serializable(m) && FlagsInRange(m.header.flags)
    requires m.header.flags.rcode != 0 && |m.questions| == 1 && m.answers == []
    requires m.header.qdcount == 1 && m.header.ancount == 0 && m.header.nscount == 0 && m.header.arcount == 0
    ensures ParseMessage(Serialize(m)) == Done(m) <==> |m.questions[0].labels| <= LABEL_ROOM
  {
    hide HeaderBytes, EncodeLabels, ReadHeader, QuestionOutcome, Val16;
    ParseOfSerialized(m);
    CountValues();
    var out, q := Serialize(m), m.questions[0];
    var end := 12 + |QuestionBytes(q)|;
    assert end == |out| && end >= 17 && m.questions == [q];
    if |q.labels| <= LABEL_ROOM {
      SingleQuestion(out, 12);
      assert SectionOutcome(out, end, 0) == Done(end);
    } else if ParseMessage(out).Done? {
      ParsedLabels(out);
    }
  }

  lemma CountValues()
    ensures Val16(0) == 0 && Val16(1) == 1
  {
  }

  lemma LengthBytes(r: Record)
    requires |r.ip| == 4
    ensures var a := AnswerBytes(Answer(r));
            |a| == 16 && a[0] != 0 && a[1] != 0 && a[2] == 0 && a[11] == 4 && Val16(Word(a[11], a[12])) >= 1024
  {
    assert High(TYPE_A) == 0;
    assert Low(4 as bv16) == 4;
    FirstByteFour(r.ip[0]);
  }

  lemma FirstByteFour(x: bv8)
    ensures Val16(Word(4, x)) >= 1024
  {
    assert Word(4, x) >= 1024;
  }

  /** The parser takes the pointer 0xC0 0x0C for a string and so rejects every successful
      response the server sends. */
  lemma SuccessfulResponseRejected(b: octets, records: seq<Record>)
    requires RecordsOk(records) && ServeOne(b, records).Reply? && |ServeOne(b, records).data| >= 12
    requires ReadHeader(ServeOne(b, records).data).flags.rcode == 0
    ensures ParseMessage(ServeOne(b, records).data) == Rejected
  {
    hide ParseMessage, RecordsOk, DottedName, FindRecord, ReadHeader, ServeOne, HeaderBytes, AnswerBytes,
         ReadName, LabelsAt, Word, Val16, High, Low, WordAt;
    ReplyEchoesQuery(b, records);
    ReplyParts(b, records);
    var out, k := ServeOne(b, records).data, QuestionEnd(b);
    var r := Verdict(b, records).1.value;
    FoundOk(records, DottedName(QuestionOutcome(b, 12).value.0.labels));
    assert out[k..] == AnswerBytes(Answer(r));
    LengthBytes(r);
    RejectedAt(out, k, r);
    QuestionReadAgain(b, out, k);
    RejectedMessage(out, k);
  }

  lemma QuestionReadAgain(b: octets, out: octets, k: nat)
    requires QuestionOutcome(b, 12).Done? && k == QuestionEnd(b)
    requires 12 < k <= |b| && k <= |out| && out[12..k] == b[12..k]
    ensures QuestionOutcome(out, 12).Done? && QuestionOutcome(out, 12).value.1 == k
  {
    hide ReadName, LabelsAt;
    DnsReference.QuestionCopied(b, out, k);
    LabelLoopIff(b, 12);
    LabelLoopIff(out, 12);
  }

  lemma RejectedAt(out: octets, k: nat, r: Record)
    requires |r.ip| == 4 && k + 16 == |out| && out[k..] == AnswerBytes(Answer(r))
    ensures SectionOutcome(out, k, 1).Done? && SectionOutcome(out, k, 1).value > |out|
  {
    hide AnswerBytes, Word, Val16;
    LengthBytes(r);
    var a := AnswerBytes(Answer(r));
    assert forall i :: 0 <= i < 16 ==> out[k + i] == out[k..][i] == a[i];
    assert out[k] != 0 && out[k + 1] != 0 && out[k + 2] == 0;
    assert ZeroAt(out, k + 2) == Some(k + 2);
    assert ZeroAt(out, k + 1) == Some(k + 2);
    assert ZeroAt(out, k) == Some(k + 2);
    var end := k + 13 + Val16(WordAt(out, k + 11));
    assert SkipRecords(out, end, 0) == Done(end);
  }

  lemma RejectedMessage(out: octets, k: nat)
    requires |out| >= 12 && 12 < k && k + 16 == |out|
    requires QuestionOutcome(out, 12).Done? && QuestionOutcome(out, 12).value.1 == k
    requires var h := ReadHeader(out); h.qdcount == 1 && h.ancount == 1
    requires SectionOutcome(out, k, 1).Done? && SectionOutcome(out, k, 1).value > |out|
    ensures ParseMessage(out) == Rejected
  {
    hide QuestionOutcome, Val16, ReadHeader, SkipRecords;
    CountValues();
    SingleQuestion(out, 12);
  }

  // A label too long for RFC 1035.

  function LongName(): octets {
    seq(64, i => 97)
  }

  /** The question for a host of one label, 64 times the letter a. */
  function LongQuestion(): Question {
    Question([Label(64, LongName())], TYPE_A, CLASS_IN)
  }

  function PlainHeader(): Header {
    Header(1, Flags(0, 0, 0, 0, 1, 0, 0, 0), 1, 0, 0, 0)
  }

  lemma LongNameFacts()
    ensures LabelsOk(LongQuestion().labels) && |EncodeName(LongQuestion().labels)| == 66
    ensures DottedName(LongQuestion().labels) == LongName()
    ensures FlagsInRange(PlainHeader().flags)
  {
    var labels := LongQuestion().labels;
    assert Val(64) == 64;
    assert labels[1..] == [];
    DnsNames.CStringOfText(LongName());
  }

  /** The input on which decoding by RFC 1035 fails: the server finds a name with a label of 64
      bytes and answers it with code 0. */
  lemma LongLabelIsAnswered() returns (b: octets, records: seq<Record>)
    ensures RecordsOk(records) && ServeOne(b, records).Reply? && |ServeOne(b, records).data| >= 12
    ensures ReadHeader(ServeOne(b, records).data).flags.rcode == 0
    ensures QuestionOutcome(b, 12).Done? && !DnsReference.LegalSizes(QuestionOutcome(b, 12).value.0.labels)
  {
    hide HeaderBytes, ReadHeader, ReadName, EncodeName, QuestionOutcome, ServeOne, DottedName, LabelsOk, FlagsInRange,
         Val16, Bytes16, LongName;
    var h, q := PlainHeader(), LongQuestion();
    b := HeaderBytes(h) + QuestionBytes(q) + [];
    records := [Record(LongName(), [10, 0, 0, 1])];
    LongNameFacts();
    QuestionWritten(h, q, []);
    CountValues();
    assert RecordsOutcome(b, 82, h) == Done(82);
    LegalQueryIsAnswered(b, records);
    CodeTable(b, records);
    assert records[0].name == DottedName(q.labels);
    assert QuestionOutcome(b, 12).value.0.labels[0].size == 64;
  }

  // Messages with any number of questions and records.

  predicate QuestionsOk(qs: seq<Question>) {
    forall i :: 0 <= i < |qs| ==> LabelsOk(qs[i].labels) && |qs[i].labels| <= 160
  }

  function AllQuestions(qs: seq<Question>): octets {
    if qs == [] then [] else QuestionBytes(qs[0]) + AllQuestions(qs[1..])
  }

  /** All questions are read, one behind the other. */
  lemma {:induction false} QuestionsOfConcat(before: octets, qs: seq<Question>, rest: octets)
    requires QuestionsOk(qs)
    ensures QuestionsOutcome(before + AllQuestions(qs) + rest, |before|, |qs|)
            == Done((qs, |before| + |AllQuestions(qs)|))
    decreases |qs|
  {
    hide QuestionBytes, QuestionOutcome, LabelsOk;
    var out := before + AllQuestions(qs) + rest;
    if qs != [] {
      var q, tail := qs[0], qs[1..];
      assert LabelsOk(q.labels);
      assert out == before + QuestionBytes(q) + (AllQuestions(tail) + rest);
      QuestionBetween(before, q, AllQuestions(tail) + rest);
      assert out == (before + QuestionBytes(q)) + AllQuestions(tail) + rest;
      QuestionsOfConcat(before + QuestionBytes(q), tail, rest);
      assert [q] + tail == qs;
    }
  }

  lemma {:induction false} QuestionsLength(qs: seq<Question>)
    ensures |AllQuestions(qs)| >= 5 * |qs|
  {
    if qs != [] {
      QuestionsLength(qs[1..]);
    }
  }

  /** A resource record whose name is a string: the name, its zero, type, class and ttl, the length
      and the data. */
  datatype WireRecord = WireRecord(name: octets, fields: octets, rdlength: bv16, rdata: octets)

  predicate WireRecordOk(r: WireRecord) {
    DnsNames.NoZero(r.name) && |r.fields| == 8 && |r.rdata| == Val16(r.rdlength)
  }

  function WireRecordBytes(r: WireRecord): octets {
    r.name + [0] + r.fields + Bytes16(r.rdlength) + r.rdata
  }

  function AllRecords(rs: seq<WireRecord>): octets {
    if rs == [] then [] else WireRecordBytes(rs[0]) + AllRecords(rs[1..])
  }

  predicate WireRecordsOk(rs: seq<WireRecord>) {
    forall i :: 0 <= i < |rs| ==> WireRecordOk(rs[i])
  }

  lemma {:induction false} ZeroBehind(before: octets, name: octets, rest: octets)
    requires DnsNames.NoZero(name)
    ensures ZeroAt(before + name + [0] + rest, |before|) == Some(|before| + |name|)
    decreases |name|
  {
    var out := before + name + [0] + rest;
    if name == [] {
      assert out[|before|] == 0;
    } else {
      assert out[|before|] == name[0];
      assert out == (before + [name[0]]) + name[1..] + [0] + rest;
      ZeroBehind(before + [name[0]], name[1..], rest);
    }
  }

  lemma OneRecordWalked(before: octets, r: WireRecord, rest: octets, n: nat)
    requires WireRecordOk(r) && n > 0
    ensures var out := before + WireRecordBytes(r) + rest;
            SkipRecords(out, |before|, n) == SkipRecords(out, |before| + |WireRecordBytes(r)|, n - 1)
  {
    hide Bytes16, WordAt, Val16, ZeroAt;
    var out := before + WireRecordBytes(r) + rest;
    var z := |before| + |r.name|;
    assert out == before + r.name + [0] + (r.fields + Bytes16(r.rdlength) + r.rdata + rest);
    ZeroBehind(before, r.name, r.fields + Bytes16(r.rdlength) + r.rdata + rest);
    assert out == (before + r.name + [0] + r.fields) + Bytes16(r.rdlength) + (r.rdata + rest);
    WordsReadBack(before + r.name + [0] + r.fields, r.rdlength, r.rdata + rest);
    assert WordAt(out, z + 9) == r.rdlength;
  }

  /** The walk over records ends behind the last one. */
  lemma {:induction false} RecordsWalked(before: octets, rs: seq<WireRecord>, rest: octets)
    requires WireRecordsOk(rs)
    ensures SkipRecords(before + AllRecords(rs) + rest, |before|, |rs|) == Done(|before| + |AllRecords(rs)|)
    decreases |rs|
  {
    hide WireRecordBytes, WireRecordOk;
    var out := before + AllRecords(rs) + rest;
    if rs != [] {
      var r, tail := rs[0], rs[1..];
      assert WireRecordOk(r);
      assert out == before + WireRecordBytes(r) + (AllRecords(tail) + rest);
      OneRecordWalked(before, r, AllRecords(tail) + rest, |rs|);
      assert out == (before + WireRecordBytes(r)) + AllRecords(tail) + rest;
      RecordsWalked(before + WireRecordBytes(r), tail, rest);
    }
  }

  lemma {:induction false} RecordsLength(rs: seq<WireRecord>)
    requires WireRecordsOk(rs)
    ensures |AllRecords(rs)| >= 11 * |rs|
  {
    if rs != [] {
      assert WireRecordOk(rs[0]);
      RecordsLength(rs[1..]);
    }
  }

  lemma SectionWalked(before: octets, rs: seq<WireRecord>, rest: octets)
    requires WireRecordsOk(rs)
    ensures SectionOutcome(before + AllRecords(rs) + rest, |before|, |rs|) == Done(|before| + |AllRecords(rs)|)
  {
    hide AllRecords, SkipRecords, WireRecordsOk;
    RecordsLength(rs);
    RecordsWalked(before, rs, rest);
  }

  predicate CountsAre(h: Header, qs: seq<Question>, an: seq<WireRecord>, ns: seq<WireRecord>, ar: seq<WireRecord>) {
    && Val16(h.qdcount) == |qs| && Val16(h.ancount) == |an|
    && Val16(h.nscount) == |ns| && Val16(h.arcount) == |ar|
  }

  lemma SectionsWalked(h: Header, qs: seq<Question>, before: octets, an: seq<WireRecord>, ns: seq<WireRecord>,
                       ar: seq<WireRecord>, rest: octets)
    requires WireRecordsOk(an) && WireRecordsOk(ns) && WireRecordsOk(ar) && CountsAre(h, qs, an, ns, ar)
    ensures RecordsOutcome(before + (AllRecords(an) + (AllRecords(ns) + (AllRecords(ar) + rest))), |before|, h).Done?
  {
    hide AllRecords, SectionOutcome, Val16, WireRecordsOk;
    var a, n, r := AllRecords(an), AllRecords(ns), AllRecords(ar);
    var out := before + (a + (n + (r + rest)));
    assert out == before + a + (n + (r + rest));
    SectionWalked(before, an, n + (r + rest));
    assert out == (before + a) + n + (r + rest);
    SectionWalked(before + a, ns, r + rest);
    assert out == (before + a + n) + r + rest;
    SectionWalked(before + a + n, ar, rest);
  }

  /** A whole message: any number of questions and of records in the three sections, as the header
      counts them, is parsed to its header and all its questions, whatever follows it. */
  lemma MessageParses(h: Header, qs: seq<Question>, an: seq<WireRecord>, ns: seq<WireRecord>, ar: seq<WireRecord>,
                      rest: octets)
    requires FlagsInRange(h.flags) && QuestionsOk(qs) && WireRecordsOk(an) && WireRecordsOk(ns) && WireRecordsOk(ar)
    requires CountsAre(h, qs, an, ns, ar)
    ensures var records := AllRecords(an) + (AllRecords(ns) + (AllRecords(ar) + rest));
            ParseMessage(HeaderBytes(h) + (AllQuestions(qs) + records)) == Done(Message(h, qs, []))
  {
    hide HeaderBytes, ReadHeader, AllQuestions, AllRecords, QuestionsOutcome, RecordsOutcome, Val16, QuestionsOk,
         WireRecordsOk;
    var head, q := HeaderBytes(h), AllQuestions(qs);
    var records := AllRecords(an) + (AllRecords(ns) + (AllRecords(ar) + rest));
    var out := head + (q + records);
    HeaderRoundTrip(h, q + records);
    QuestionsLength(qs);
    assert out == head + q + records;
    QuestionsOfConcat(head, qs, records);
    SectionsWalked(h, qs, head + q, an, ns, ar, rest);
  }

  lemma {:induction false} WalkNeverRejects(b: octets, loc: nat, n: nat)
    ensures SkipRecords(b, loc, n).Done? || SkipRecords(b, loc, n).Overread?
    decreases n
  {
    hide ZeroAt, Val16, WordAt;
    if n > 0 && ZeroAt(b, loc).Some? && ZeroAt(b, loc).value + 11 <= |b| {
      var z := ZeroAt(b, loc).value;
      WalkNeverRejects(b, z + 11 + Val16(WordAt(b, z + 9)), n - 1);
    }
  }

  /** A section is rejected exactly when fewer bytes are left than ten for each record. */
  lemma SectionRejectedIff(b: octets, loc: nat, n: nat)
    ensures SectionOutcome(b, loc, n).Rejected? <==> |b| - loc < 10 * n
  {
    hide SkipRecords;
    WalkNeverRejects(b, loc, n);
  }

  lemma {:induction false} QuestionsNeverReject(b: octets, loc: nat, n: nat)
    ensures !QuestionsOutcome(b, loc, n).Rejected?
    decreases n
  {
    hide ReadName, LabelsAt, WordAt;
    if n > 0 && QuestionOutcome(b, loc).Done? {
      QuestionsNeverReject(b, QuestionOutcome(b, loc).value.1, n - 1);
    }
  }

  /** The parser rejects exactly a buffer that is shorter than a header, or than four bytes for each
      question behind it, or, once the questions are read, than ten bytes for each record of a
      section behind what was read before. */
  lemma RejectedIff(b: octets)
    ensures ParseMessage(b).Rejected?
            <==> || |b| < 12
                 || |b| - 12 < 4 * Val16(ReadHeader(b).qdcount)
                 || (QuestionsOutcome(b, 12, Val16(ReadHeader(b).qdcount)).Done?
                     && SectionsRejected(b, QuestionsOutcome(b, 12, Val16(ReadHeader(b).qdcount)).value.1,
                                         [Val16(ReadHeader(b).ancount), Val16(ReadHeader(b).nscount),
                                          Val16(ReadHeader(b).arcount)]))
  {
    hide QuestionsOutcome, SkipRecords, ReadHeader, Val16;
    if |b| >= 12 {
      var h := ReadHeader(b);
      QuestionsNeverReject(b, 12, Val16(h.qdcount));
      if QuestionsOutcome(b, 12, Val16(h.qdcount)).Done? {
        ThreeSections(b, QuestionsOutcome(b, 12, Val16(h.qdcount)).value.1, h);
      }
    }
  }

  /** Among the sections that start at `loc`, the first whose walk does not fail before is too short. */
  predicate SectionsRejected(b: octets, loc: nat, counts: seq<nat>)
    decreases |counts|
  {
    counts != []
    && (|b| - loc < 10 * counts[0]
        || (SkipRecords(b, loc, counts[0]).Done?
            && SectionsRejected(b, SkipRecords(b, loc, counts[0]).value, counts[1..])))
  }

  lemma ThreeSections(b: octets, loc: nat, h: Header)
    ensures RecordsOutcome(b, loc, h).Rejected?
            <==> SectionsRejected(b, loc, [Val16(h.ancount), Val16(h.nscount), Val16(h.arcount)])
  {
    hide SkipRecords, Val16;
    var an, ns, ar := Val16(h.ancount), Val16(h.nscount), Val16(h.arcount);
    WalkNeverRejects(b, loc, an);
    FirstSection(b, loc, an, [ns, ar]);
    if SkipRecords(b, loc, an).Done? {
      var loc1 := SkipRecords(b, loc, an).value;
      WalkNeverRejects(b, loc1, ns);
      FirstSection(b, loc1, ns, [ar]);
      if SkipRecords(b, loc1, ns).Done? {
        var loc2 := SkipRecords(b, loc1, ns).value;
        WalkNeverRejects(b, loc2, ar);
        FirstSection(b, loc2, ar, []);
        assert !SectionsRejected(b, loc2, []);
      }
    }
  }

  lemma FirstSection(b: octets, loc: nat, n: nat, more: seq<nat>)
    ensures SectionsRejected(b, loc, [n] + more)
            <==> |b| - loc < 10 * n
                 || (SkipRecords(b, loc, n).Done? && SectionsRejected(b, SkipRecords(b, loc, n).value, more))
  {
    hide SkipRecords;
    assert ([n] + more)[1..] == more;
  }
}
