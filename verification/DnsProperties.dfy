/**
  What a DNS client can rely on: the question comes back unchanged, the response code says
  what was found, and the answer can be decoded by the rules of RFC 1035.
 */
module DnsProperties {
  import opened Wrappers
  import opened DnsWire
  import opened DnsParser
  import opened DnsResolver
  import opened DnsServer
  import opened DnsNames

  /** The first question in `b`: its labels and where it ends. */
  function QuestionEnd(b: octets): nat
    requires QuestionOutcome(b, 12).Done?
  {
    QuestionOutcome(b, 12).value.1
  }

  lemma QuestionBytesAre(b: octets)
    requires QuestionOutcome(b, 12).Done?
    ensures 12 < QuestionEnd(b) <= |b|
    ensures QuestionBytes(QuestionOutcome(b, 12).value.0) == b[12..QuestionEnd(b)]
  {
    hide LabelsOutcome, ReadName, EncodeName, Word, High, Low;
    LabelLoopIff(b, 12);
    var (labels, next) := LabelsOutcome(b, 12).value;
    HalvesOfWord(b[next], b[next + 1]);
    HalvesOfWord(b[next + 2], b[next + 3]);
    assert b[12..next + 4] == b[12..next] + [b[next], b[next + 1]] + [b[next + 2], b[next + 3]];
  }

  /** A reply is a parsed query with a question, resolved and serialized. */
  lemma ReplyIs(b: octets, records: seq<Record>)
    requires RecordsOk(records) && ServeOne(b, records).Reply?
    ensures ParseMessage(b).Done? && ParseMessage(b).value.questions != []
    ensures Resolve(ParseMessage(b).value, records).Done?
    ensures var response := Resolve(ParseMessage(b).value, records).value;
            && Serializable(response) && ServeOne(b, records).data == Serialize(response)
            && response.questions == [ParseMessage(b).value.questions[0]]
            && FlagsInRange(response.header.flags)
    ensures |b| >= 12 && ParseMessage(b).value.header == ReadHeader(b)
    ensures QuestionOutcome(b, 12).Done? && QuestionOutcome(b, 12).value.0 == ParseMessage(b).value.questions[0]
  {
    hide ParseMessage, Serialize, RecordsOk, LabelsOk, DottedName, FindRecord, QuestionOutcome, Word;
    var m := ParseMessage(b).value;
    ParsedLabels(b);
    ResolvedSerializable(m, records);
    PackOfUnpack(b[2], b[3]);
  }

  /** The response to the question of `b`, spelled out: the code and, on success, the record. */
  function Verdict(b: octets, records: seq<Record>): (bv8, Option<Record>)
    requires |b| >= 12 && QuestionOutcome(b, 12).Done?
  {
    var h, q := ReadHeader(b), QuestionOutcome(b, 12).value.0;
    if h.qdcount != 1 then (1, None)
    else if q.qtype != TYPE_A || q.qclass != CLASS_IN || h.flags.opcode == 1 then (4, None)
    else
      match FindRecord(records, DottedName(q.labels))
      case None => (3, None)
      case Some(r) => (0, Some(r))
  }

  /** A reply is put together of the response header, the question as received, and on success
      the answer. */
  lemma ReplyParts(b: octets, records: seq<Record>)
    requires RecordsOk(records) && ServeOne(b, records).Reply?
    ensures |b| >= 12 && QuestionOutcome(b, 12).Done? && QuestionEnd(b) <= |b| && 12 < QuestionEnd(b)
    ensures var (code, found) := Verdict(b, records);
            var ancount := if code == 0 then 1 else 0;
            ServeOne(b, records).data
            == HeaderBytes(ResponseHeader(ReadHeader(b), code, ancount)) + b[12..QuestionEnd(b)]
               + (if code == 0 then AnswerBytes(Answer(found.value)) else [])
  {
    hide ParseMessage, RecordsOk, LabelsOk, DottedName, FindRecord, QuestionOutcome, Word, HeaderBytes,
         AnswerBytes, QuestionBytes, ServeOne, Serializable, QuestionEnd;
    ReplyIs(b, records);
    QuestionBytesAre(b);
    var m := ParseMessage(b).value;
    ParsedLabels(b);
    CodeIs(m, records);
    OneIsOne(m.header.qdcount);
  }

  lemma FlagBytes(high: bv8, low: bv8, code: bv8)
    requires code < 16
    ensures var f := UnpackFlags(high, low);
            var w := PackFlags(Flags(1, f.opcode, 1, 0, f.rd, 0, 0, code));
            High(w) == 0x84 | (high & 0x79) && Low(w) == code
  {
  }

  lemma SmallWords()
    ensures Bytes16(0) == [0, 0] && Bytes16(1) == [0, 1] && Bytes16(4) == [0, 4] && Bytes32(0) == [0, 0, 0, 0]
  {
    assert High(0) == 0 && Low(0) == 0 && High(1) == 0 && Low(1) == 1 && High(4) == 0 && Low(4) == 4;
  }

  lemma ResponseHeaderBytes(b: octets, code: bv8, ancount: bv16)
    requires |b| >= 12 && code < 16 && (ancount == 0 || ancount == 1)
    ensures HeaderBytes(ResponseHeader(ReadHeader(b), code, ancount))
            == b[..2] + [0x84 | (b[2] & 0x79), code] + [0, 1] + [0, if ancount == 0 then 0 else 1] + [0, 0] + [0, 0]
  {
    hide Bytes16, Word, PackFlags, UnpackFlags;
    SmallWords();
    assert Bytes16(ReadHeader(b).identifier) == b[..2] by {
      IdentifierCopied(b);
    }
    assert Bytes16(PackFlags(ResponseHeader(ReadHeader(b), code, ancount).flags)) == [0x84 | (b[2] & 0x79), code] by {
      FlagsCopied(b, code, ancount);
    }
  }

  lemma IdentifierCopied(b: octets)
    requires |b| >= 12
    ensures Bytes16(ReadHeader(b).identifier) == b[..2]
  {
    hide Word, High, Low, UnpackFlags;
    HalvesOfWord(b[0], b[1]);
  }

  lemma FlagsCopied(b: octets, code: bv8, ancount: bv16)
    requires |b| >= 12 && code < 16
    ensures Bytes16(PackFlags(ResponseHeader(ReadHeader(b), code, ancount).flags)) == [0x84 | (b[2] & 0x79), code]
  {
    hide Word, High, Low, PackFlags, UnpackFlags;
    FlagBytes(b[2], b[3], code);
  }

  lemma AnswerBytesAre(r: Record)
    ensures AnswerBytes(Answer(r)) == [0xC0, 0x0C] + [0, 1] + [0, 1] + [0, 0, 0, 0] + [0, 4] + r.ip
  {
    hide High, Low;
    SmallWords();
  }

  /** Every reply, byte for byte: the identifier received; a response with authority, neither
      truncated nor offering recursion, with opcode and recursion bit as received, and the code;
      one question, an answer on success and nothing else counted; the question as received;
      and on success an answer that points back at offset 12, of type A and class IN, with ttl 0
      and the four address bytes. */
  lemma ReplyBytes(b: octets, records: seq<Record>)
    requires RecordsOk(records) && ServeOne(b, records).Reply?
    ensures |b| >= 12 && QuestionOutcome(b, 12).Done? && QuestionEnd(b) <= |b| && 12 < QuestionEnd(b)
    ensures var (code, found) := Verdict(b, records);
            ServeOne(b, records).data
            == b[..2] + [0x84 | (b[2] & 0x79), code] + [0, 1] + [0, if code == 0 then 1 else 0] + [0, 0] + [0, 0]
               + b[12..QuestionEnd(b)]
               + (if code == 0
                  then [0xC0, 0x0C] + [0, 1] + [0, 1] + [0, 0, 0, 0] + [0, 4] + found.value.ip else [])
  {
    hide RecordsOk, DottedName, FindRecord, QuestionOutcome, ServeOne, HeaderBytes, AnswerBytes, QuestionEnd,
         ReadHeader, ResponseHeader, Answer;
    ReplyParts(b, records);
    var (code, found) := Verdict(b, records);
    ResponseHeaderBytes(b, code, if code == 0 then 1 else 0);
    if code == 0 {
      AnswerBytesAre(found.value);
    }
  }

  lemma OneIsOne(w: bv16)
    ensures w != 1 <==> Val16(w) != 1
  {
  }

  lemma CodeIs(m: Message, records: seq<Record>)
    requires m.questions != [] && Resolve(m, records).Done?
    ensures Resolve(m, records).value.header.flags.rcode
            == if HeaderCode(m) != 0 then HeaderCode(m)
               else if FindRecord(records, DottedName(m.questions[0].labels)).None? then 3 else 0
  {
    hide DottedName, FindRecord;
  }

  /** The identifier, the kind of query and the whole question come back unchanged, and the
      length tells whether an answer follows; `ancount` says the same. */
  lemma ReplyEchoesQuery(b: octets, records: seq<Record>)
    requires RecordsOk(records) && ServeOne(b, records).Reply?
    ensures |b| >= 12 && QuestionOutcome(b, 12).Done?
    ensures var out, k := ServeOne(b, records).data, QuestionEnd(b);
            && 12 < k <= |b| && k <= |out|
            && out[..2] == b[..2] && out[12..k] == b[12..k]
            && (var h := ReadHeader(out);
                && |out| == (if h.flags.rcode == 0 then k + 16 else k)
                && h.ancount == (if h.flags.rcode == 0 then 1 else 0)
                && h.qdcount == 1 && h.nscount == 0 && h.arcount == 0
                && h.flags.rcode == Verdict(b, records).0
                && h.flags == Flags(1, ReadHeader(b).flags.opcode, 1, 0, ReadHeader(b).flags.rd, 0, 0,
                                    Verdict(b, records).0))
  {
    hide ParseMessage, RecordsOk, DottedName, FindRecord, QuestionOutcome, Word, PackFlags, UnpackFlags,
         ServeOne, HeaderBytes, AnswerBytes, QuestionEnd, High, Low;
    ReplyParts(b, records);
    var (code, found) := Verdict(b, records);
    var rh := ResponseHeader(ReadHeader(b), code, if code == 0 then 1 else 0);
    var rest := b[12..QuestionEnd(b)] + (if code == 0 then AnswerBytes(Answer(found.value)) else []);
    var out := ServeOne(b, records).data;
    assert out == HeaderBytes(rh) + rest;
    ResponseFlags(b, code);
    HeaderRoundTrip(rh, rest);
    IdentifierBytes(b, rh);
    if code == 0 {
      FoundOk(records, DottedName(QuestionOutcome(b, 12).value.0.labels));
      AnswerLength(found.value);
    }
  }

  lemma ResponseFlags(b: octets, code: bv8)
    requires |b| >= 12 && code < 16
    ensures FlagsInRange(ResponseHeader(ReadHeader(b), code, 0).flags)
    ensures FlagsInRange(ResponseHeader(ReadHeader(b), code, 1).flags)
  {
    hide Word;
    PackOfUnpack(b[2], b[3]);
  }

  lemma IdentifierBytes(b: octets, h: Header)
    requires |b| >= 12 && h.identifier == ReadHeader(b).identifier
    ensures HeaderBytes(h)[..2] == b[..2]
  {
    hide Word, High, Low, PackFlags, UnpackFlags;
    HalvesOfWord(b[0], b[1]);
  }

  lemma AnswerLength(r: Record)
    requires |r.ip| == 4
    ensures |AnswerBytes(Answer(r))| == 16
  {
  }

  /** The response code, for every reply: 1 unless there is one question, 4 for another type,
      class or an inverse query, 3 when no record has the name, 0 when one has. */
  lemma CodeTable(b: octets, records: seq<Record>)
    requires RecordsOk(records) && ServeOne(b, records).Reply?
    ensures |b| >= 12 && QuestionOutcome(b, 12).Done? && |ServeOne(b, records).data| >= 12
    ensures var code := ReadHeader(ServeOne(b, records).data).flags.rcode;
            var h, q := ReadHeader(b), QuestionOutcome(b, 12).value.0;
            var valid := h.qdcount == 1 && q.qtype == TYPE_A && q.qclass == CLASS_IN && h.flags.opcode != 1;
            var known := exists i :: 0 <= i < |records| && records[i].name == DottedName(q.labels);
            && (code == 1 <==> h.qdcount != 1)
            && (code == 4 <==> h.qdcount == 1 && !valid)
            && (code == 3 <==> valid && !known)
            && (code == 0 <==> valid && known)
  {
    hide ParseMessage, RecordsOk, DottedName, FindRecord, QuestionOutcome, ReadHeader, ServeOne, QuestionEnd;
    ReplyEchoesQuery(b, records);
    FindsFirst(records, DottedName(QuestionOutcome(b, 12).value.0.labels));
  }

  /** A query with one question, a legal name inside the buffer and readable record sections
      is always answered, in at most 287 bytes. */
  lemma LegalQueryIsAnswered(b: octets, records: seq<Record>)
    requires RecordsOk(records) && |b| >= 12 && Val16(ReadHeader(b).qdcount) == 1
    requires ReadName(b, 12).Some? && ReadName(b, 12).value.1 <= 12 + 255 && ReadName(b, 12).value.1 + 4 <= |b|
    requires RecordsOutcome(b, ReadName(b, 12).value.1 + 4, ReadHeader(b)).Done?
    ensures ServeOne(b, records).Reply? && |ServeOne(b, records).data| <= 287
  {
    hide ReadHeader, RecordsOutcome, Val16, DottedName, FindRecord, ReadName, Serialize, HeaderBytes,
         EncodeName, LabelsOk, LabelsOutcome, RecordsOk, QuestionOutcome, QuestionsOutcome;
    OneQuestion(b);
    var m := ParseMessage(b).value;
    var labels := ReadName(b, 12).value.0;
    EncodeOfRead(b, 12);
    LegalNameFits(labels);
    ResolvedSerializable(m, records);
    ResolvedShort(m, records);
  }

  lemma OneQuestion(b: octets)
    requires |b| >= 12 && Val16(ReadHeader(b).qdcount) == 1
    requires ReadName(b, 12).Some? && ReadName(b, 12).value.1 <= 12 + 255 && ReadName(b, 12).value.1 + 4 <= |b|
    requires RecordsOutcome(b, ReadName(b, 12).value.1 + 4, ReadHeader(b)).Done?
    ensures ParseMessage(b).Done? && |ParseMessage(b).value.questions| == 1
    ensures ParseMessage(b).value.questions[0].labels == ReadName(b, 12).value.0
  {
    hide ReadHeader, RecordsOutcome, Val16, ReadName, LabelsOutcome, WordAt;
    LegalNameParses(b, 12);
    assert QuestionOutcome(b, 12).Done?;
  }

  lemma ResolvedShort(m: Message, records: seq<Record>)
    requires m.questions != [] && RecordsOk(records) && Resolve(m, records).Done?
    requires |EncodeName(m.questions[0].labels)| <= 255
    requires Serializable(Resolve(m, records).value)
    ensures |Serialize(Resolve(m, records).value)| <= 287
  {
    hide DottedName, FindRecord, EncodeName, HeaderBytes, Val16, LabelsOk, RecordsOk;
    FoundOk(records, DottedName(m.questions[0].labels));
  }

  lemma OneInBytes(high: bv8, low: bv8)
    ensures Word(high, low) == 1 <==> high == 0 && low == 1
  {
  }

  lemma OpcodeInBytes(high: bv8, low: bv8)
    ensures UnpackFlags(high, low).opcode == 1 <==> high & 0x78 == 0x08
  {
  }

  lemma PlainInBytes(b: octets)
    requires QuestionOutcome(b, 12).Done?
    ensures 16 < QuestionEnd(b) <= |b|
    ensures var q, k := QuestionOutcome(b, 12).value.0, QuestionEnd(b);
            q.qtype == 1 && q.qclass == 1 <==> b[k - 4..k] == [0, 1, 0, 1]
  {
    hide LabelsOutcome, Word, ReadName, EncodeLabels;
    LabelLoopIff(b, 12);
    var k := QuestionEnd(b);
    OneInBytes(b[k - 4], b[k - 3]);
    OneInBytes(b[k - 2], b[k - 1]);
    assert b[k - 4..k] == [b[k - 4], b[k - 3], b[k - 2], b[k - 1]];
  }

  lemma FourthByte(b: octets, records: seq<Record>)
    requires RecordsOk(records) && ServeOne(b, records).Reply?
    ensures |b| >= 12 && QuestionOutcome(b, 12).Done? && |ServeOne(b, records).data| >= 12
    ensures ServeOne(b, records).data[3] == Verdict(b, records).0
  {
    hide RecordsOk, ServeOne, QuestionOutcome, Verdict, QuestionEnd;
    ReplyBytes(b, records);
  }

  /** The response code, from the bytes of query and reply: the fourth byte of the reply is 1 unless
      the count in the query is 1, 4 for a type or class that is not 1 or an inverse query, 3 when
      no record has the name, 0 when one has. */
  lemma CodeInBytes(b: octets, records: seq<Record>)
    requires RecordsOk(records) && ServeOne(b, records).Reply?
    ensures QuestionOutcome(b, 12).Done? && 16 < QuestionEnd(b) <= |b| && |ServeOne(b, records).data| >= 12
    ensures var code, k := ServeOne(b, records).data[3], QuestionEnd(b);
            var one := b[4] == 0 && b[5] == 1;
            var plain := b[k - 4..k] == [0, 1, 0, 1] && b[2] & 0x78 != 0x08;
            var known := exists i :: 0 <= i < |records|
                                     && records[i].name == DottedName(QuestionOutcome(b, 12).value.0.labels);
            && (code == 1 <==> !one)
            && (code == 4 <==> one && !plain)
            && (code == 3 <==> one && plain && !known)
            && (code == 0 <==> one && plain && known)
  {
    hide RecordsOk, DottedName, FindRecord, ServeOne, QuestionOutcome, Word, UnpackFlags, QuestionEnd;
    FourthByte(b, records);
    PlainInBytes(b);
    FindsFirst(records, DottedName(QuestionOutcome(b, 12).value.0.labels));
    OneInBytes(b[4], b[5]);
    OpcodeInBytes(b[2], b[3]);
  }

  /** When the server replies: exactly to a query that is parsed and has a question, whose dotted
      name fits the 256 bytes of its buffer if it is looked up at all, and whose reply fits the
      512 bytes of the message buffer. It waits for the next query exactly when the parser
      rejects this one. */
  lemma RepliesIff(b: octets, records: seq<Record>)
    requires RecordsOk(records)
    ensures ServeOne(b, records).NoReply? <==> ParseMessage(b).Rejected?
    ensures ServeOne(b, records).Reply?
            <==> && ParseMessage(b).Done? && ParseMessage(b).value.questions != []
                 && QuestionOutcome(b, 12).Done? && |b| >= 12
                 && var code, labels := Verdict(b, records).0, QuestionOutcome(b, 12).value.0.labels;
                    && (code == 0 || code == 3 ==> |DottedName(labels)| + 1 <= 256)
                    && QuestionEnd(b) + (if code == 0 then 16 else 0) <= 512
  {
    hide ParseMessage, RecordsOk, DottedName, FindRecord, QuestionOutcome, ReadHeader, Serialize, LabelsOk, Val16,
         QuestionEnd;
    if ParseMessage(b).Done? && ParseMessage(b).value.questions != [] {
      ParsedLabels(b);
      var m := ParseMessage(b).value;
      OneIsOne(m.header.qdcount);
      if Resolve(m, records).Done? {
        ResolvedSerializable(m, records);
        ResponseLength(b, records);
      }
    }
  }

  lemma ResponseLength(b: octets, records: seq<Record>)
    requires RecordsOk(records) && ParseMessage(b).Done? && ParseMessage(b).value.questions != []
    requires Resolve(ParseMessage(b).value, records).Done?
    requires Serializable(Resolve(ParseMessage(b).value, records).value)
    ensures |b| >= 12 && QuestionOutcome(b, 12).Done?
    ensures |Serialize(Resolve(ParseMessage(b).value, records).value)|
            == QuestionEnd(b) + if Verdict(b, records).0 == 0 then 16 else 0
  {
    hide ParseMessage, DottedName, FindRecord, QuestionOutcome, ReadHeader, LabelsOk, HeaderBytes, QuestionBytes,
         QuestionEnd, Val16, RecordsOk;
    ParsedLabels(b);
    var m := ParseMessage(b).value;
    OneIsOne(m.header.qdcount);
    CodeIs(m, records);
    QuestionBytesAre(b);
    FoundOk(records, DottedName(m.questions[0].labels));
  }
}
