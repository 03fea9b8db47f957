/**
  One turn of the DNS server: parse the datagram, resolve it, write the response. The
  properties are about every buffer, not only those that hold a well-formed query.
 */
module DnsServer {
  import opened Wrappers
  import opened DnsWire
  import opened DnsParser
  import opened DnsResolver
  import DnsNames

  /** The server's message buffers. */
  const MESSAGE_SIZE: nat := 512

  datatype Reply =
    | Reply(data: octets)
    | NoReply          // the query is not parsed; the server waits for the next one
    | Undefined        // an access outside a buffer or array on the way

  predicate RecordsOk(records: seq<Record>) {
    forall i :: 0 <= i < |records| ==> |records[i].ip| == 4
  }

  lemma FoundOk(records: seq<Record>, name: octets)
    requires RecordsOk(records)
    ensures FindRecord(records, name).Some? ==> |FindRecord(records, name).value.ip| == 4
  {
    DnsNames.FindsFirst(records, name);
  }

  lemma FourIsFour()
    ensures Val16(4) == 4
  {
  }

  /** A parsed message has as many questions as its header says, all with non-empty labels. */
  lemma {:induction false} QuestionsParsed(b: octets, loc: nat, n: nat)
    requires QuestionsOutcome(b, loc, n).Done?
    ensures var (qs, end) := QuestionsOutcome(b, loc, n).value;
            && |qs| == n
            && (forall i :: 0 <= i < |qs| ==> LabelsOk(qs[i].labels))
            && (n > 0 ==> QuestionOutcome(b, loc).Done? && QuestionOutcome(b, loc).value.0 == qs[0])
    decreases n
  {
    hide LabelsOutcome, LabelsOk, WordAt;
    if n > 0 {
      var (q, next) := QuestionOutcome(b, loc).value;
      LabelLoopIff(b, loc);
      QuestionsParsed(b, next, n - 1);
    }
  }

  lemma ResolvedSerializable(m: Message, records: seq<Record>)
    requires m.questions != [] && LabelsOk(m.questions[0].labels) && RecordsOk(records)
    requires Resolve(m, records).Done?
    ensures Serializable(Resolve(m, records).value)
  {
    hide LabelsOk, DottedName, FindRecord, Val16;
    FoundOk(records, DottedName(m.questions[0].labels));
    FourIsFour();
  }

  function ServeOne(b: octets, records: seq<Record>): Reply
    requires RecordsOk(records)
  {
    match ParseMessage(b)
    case Rejected => NoReply
    case Overread => Undefined
    case Overrun => Undefined
    case Done(m) =>
      if m.questions == [] then Undefined
      else
        match Resolve(m, records)
        case Done(response) =>
          QuestionsParsed(b, 12, Val16(m.header.qdcount));
          ResolvedSerializable(m, records);
          if |Serialize(response)| > MESSAGE_SIZE then Undefined else Reply(Serialize(response))
        case _ => Undefined
  }

  /** The body of `thread_serve`: what is sent are the first bytes of the server's buffer. */
  method Serve(clientMessage: array<bv8>, serverMessage: array<bv8>, records: seq<Record>) returns (r: Reply)
    requires RecordsOk(records) && serverMessage.Length == MESSAGE_SIZE && clientMessage != serverMessage
    modifies serverMessage
    ensures r == ServeOne(clientMessage[..], records)
    ensures r.Reply? ==> |r.data| <= MESSAGE_SIZE && serverMessage[..|r.data|] == r.data
  {
    hide ParseMessage, Resolve, Serialize, Splice, QuestionsOutcome, Val16, LabelsOk, RecordsOk,
         Serializable;
    var parsed := ParseDnsMessage(clientMessage);
    if parsed.Rejected? {
      return NoReply;
    }
    if !parsed.Done? || parsed.value.questions == [] {
      return Undefined;
    }
    var resolved := ResolveQuery(parsed.value, records);
    if !resolved.Done? {
      ResolveIsDoneOrOverrun(parsed.value, records);
      return Undefined;
    }
    assert LabelsOk(parsed.value.questions[0].labels) by {
      ParsedLabels(clientMessage[..]);
    }
    ResolvedSerializable(parsed.value, records);
    var response := resolved.value;
    // The C code writes on without looking; past the buffer its behaviour is undefined.
    if |Serialize(response)| > MESSAGE_SIZE {
      return Undefined;
    }
    var offset := Stringify(response, serverMessage);
    assert serverMessage[..offset] == Serialize(response) by {
      SpliceAtStart(old(serverMessage[..]), Serialize(response));
    }
    return Reply(serverMessage[..offset]);
  }

  lemma SpliceAtStart(b: octets, bytes: octets)
    requires |bytes| <= |b|
    ensures Splice(b, 0, bytes)[..|bytes|] == bytes
  {
  }

  lemma ResolveIsDoneOrOverrun(m: Message, records: seq<Record>)
    requires m.questions != []
    ensures Resolve(m, records).Done? || Resolve(m, records).Overrun?
  {
  }

  lemma ParsedLabels(b: octets)
    requires ParseMessage(b).Done? && ParseMessage(b).value.questions != []
    ensures LabelsOk(ParseMessage(b).value.questions[0].labels)
    ensures QuestionOutcome(b, 12).Done? && QuestionOutcome(b, 12).value.0 == ParseMessage(b).value.questions[0]
    ensures |b| >= 12 && ParseMessage(b).value.header == ReadHeader(b)
    ensures Val16(ParseMessage(b).value.header.qdcount) == |ParseMessage(b).value.questions|
  {
    hide LabelsOutcome, LabelsOk, ReadHeader, RecordsOutcome;
    QuestionsParsed(b, 12, Val16(ReadHeader(b).qdcount));
  }
}
