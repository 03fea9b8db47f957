/**
  The resolver: the response header and code, the dotted name, the record search, the
  answer, and the serializer that writes the response into a buffer.
 */
module DnsResolver {
  import opened Wrappers
  import opened DnsWire
  import opened DnsParser

  /** A resource record as loaded: the domain name and the four address bytes in memory order. */
  datatype Record = Record(name: octets, ip: octets)

  const DOT: bv8 := 46

  /** Room in `domain_name`, without the closing zero. */
  const NAME_ROOM: nat := 255

  /** The bytes the C string functions see: up to the first zero. */
  function CString(s: octets): octets {
    if s == [] || s[0] == 0 then [] else [s[0]] + CString(s[1..])
  }

  /** The labels as C strings with dots between them. */
  function DottedName(labels: seq<Label>): octets {
    if labels == [] then []
    else if |labels| == 1 then CString(labels[0].name)
    else CString(labels[0].name) + [DOT] + DottedName(labels[1..])
  }

  /** The first record of that name. */
  function FindRecord(records: seq<Record>, name: octets): Option<Record> {
    if records == [] then None
    else if records[0].name == name then Some(records[0])
    else FindRecord(records[1..], name)
  }

  /** The code `set_header` settles on before any lookup; 0 lets the lookup decide. */
  function HeaderCode(m: Message): bv8
    requires m.questions != []
  {
    if m.header.qdcount != 1 then 1
    else if m.questions[0].qtype != TYPE_A then 4
    else if m.questions[0].qclass != CLASS_IN then 4
    else if m.header.flags.opcode == 1 then 4
    else 0
  }

  function ResponseHeader(h: Header, rcode: bv8, ancount: bv16): Header {
    Header(h.identifier, Flags(1, h.flags.opcode, 1, 0, h.flags.rd, 0, 0, rcode), 1, ancount, 0, 0)
  }

  function Answer(r: Record): Resource {
    Resource([0xC0, 0x0C], TYPE_A, CLASS_IN, 0, 4, r.ip)
  }

  /** `resolve_query`; `Overrun` where the dotted name does not fit its buffer. */
  function Resolve(m: Message, records: seq<Record>): Outcome<Message>
    requires m.questions != []
  {
    var q := [m.questions[0]];
    var code := HeaderCode(m);
    if code != 0 then Done(Message(ResponseHeader(m.header, code, 0), q, []))
    else if |DottedName(m.questions[0].labels)| > NAME_ROOM then Overrun
    else
      match FindRecord(records, DottedName(m.questions[0].labels))
      case None => Done(Message(ResponseHeader(m.header, 3, 0), q, []))
      case Some(r) => Done(Message(ResponseHeader(m.header, 0, 1), q, [Answer(r)]))
  }

  lemma {:induction false} DottedOfAppended(labels: seq<Label>, l: Label)
    ensures DottedName(labels + [l])
            == if labels == [] then CString(l.name) else DottedName(labels) + [DOT] + CString(l.name)
    decreases |labels|
  {
    if labels == [] {
      assert [] + [l] == [l];
    } else {
      assert (labels + [l])[1..] == labels[1..] + [l];
      DottedOfAppended(labels[1..], l);
      if |labels| > 1 {
        assert DottedName(labels) == CString(labels[0].name) + [DOT] + DottedName(labels[1..]);
      }
    }
  }

  lemma NoLabelsNoName()
    ensures DottedName([]) == []
  {
  }

  lemma {:induction false} DottedGrows(labels: seq<Label>, more: seq<Label>)
    ensures |DottedName(labels)| <= |DottedName(labels + more)|
    decreases |more|
  {
    hide DottedName, CString;
    if more == [] {
      assert labels + [] == labels;
    } else {
      var longer := labels + [more[0]];
      DottedOfAppended(labels, more[0]);
      NoLabelsNoName();
      assert |DottedName(labels)| <= |DottedName(longer)|;
      DottedGrows(longer, more[1..]);
      assert labels + more == longer + more[1..];
    }
  }

  /** The join loop of `set_answer`; `None` once the name outgrows its buffer. */
  method JoinLabels(labels: seq<Label>) returns (name: Option<octets>)
    ensures name == if |DottedName(labels)| > NAME_ROOM then None else Some(DottedName(labels))
  {
    hide DottedName, CString;
    NoLabelsNoName();
    var domainName: octets := [];
    var i := 0;
    while i < |labels|
      invariant 0 <= i <= |labels|
      invariant |DottedName(labels[..i])| <= NAME_ROOM
      invariant domainName == if i == 0 then []
                              else if i < |labels| then DottedName(labels[..i]) + [DOT]
                              else DottedName(labels)
    {
      DottedOfAppended(labels[..i], labels[i]);
      assert labels[..i] + [labels[i]] == labels[..i + 1];
      domainName := domainName + CString(labels[i].name);
      assert domainName == DottedName(labels[..i + 1]);
      if |domainName| > NAME_ROOM {
        DottedGrows(labels[..i + 1], labels[i + 1..]);
        assert labels[..i + 1] + labels[i + 1..] == labels;
        return None;
      }
      if i != |labels| - 1 {
        domainName := domainName + [DOT];
        if |domainName| > NAME_ROOM {
          DottedOfAppended(labels[..i + 1], labels[i + 1]);
          DottedGrows(labels[..i + 2], labels[i + 2..]);
          assert labels[..i + 1] + [labels[i + 1]] == labels[..i + 2];
          assert labels[..i + 2] + labels[i + 2..] == labels;
          return None;
        }
      } else {
        assert labels[..i + 1] == labels;
      }
      i := i + 1;
    }
    assert labels[..i] == labels;
    return Some(domainName);
  }

  /** The search loop of `set_answer`. */
  method SearchRecord(records: seq<Record>, name: octets) returns (r: Option<Record>)
    ensures r == FindRecord(records, name)
  {
    var i := 0;
    while i < |records|
      invariant 0 <= i <= |records|
      invariant FindRecord(records, name) == FindRecord(records[i..], name)
    {
      if records[i].name == name {
        return Some(records[i]);
      }
      assert records[i..][1..] == records[i + 1..];
      i := i + 1;
    }
    return None;
  }

  /** `set_header`: the response header without its counts, and whether an error was found. */
  method SetHeader(m: Message) returns (identifier: bv16, flags: Flags, error: bool)
    requires m.questions != []
    ensures identifier == m.header.identifier
    ensures flags == Flags(1, m.header.flags.opcode, 1, 0, m.header.flags.rd, 0, 0, HeaderCode(m))
    ensures error <==> HeaderCode(m) != 0
  {
    identifier := m.header.identifier;
    flags := Flags(1, m.header.flags.opcode, 1, 0, m.header.flags.rd, 0, 0, 0);
    if m.header.qdcount != 1 {
      return identifier, flags.(rcode := 1), true;
    }
    if m.questions[0].qtype != TYPE_A {
      return identifier, flags.(rcode := 4), true;
    }
    if m.questions[0].qclass != CLASS_IN {
      return identifier, flags.(rcode := 4), true;
    }
    if m.header.flags.opcode == 1 {
      return identifier, flags.(rcode := 4), true;
    }
    return identifier, flags, false;
  }

  method ResolveQuery(m: Message, records: seq<Record>) returns (r: Outcome<Message>)
    requires m.questions != []
    ensures r == Resolve(m, records)
  {
    var identifier, flags, error := SetHeader(m);
    var question := m.questions[0];
    if error {
      return Done(Message(Header(identifier, flags, 1, 0, 0, 0), [question], []));
    }
    var name := JoinLabels(question.labels);
    if name == None {
      return Overrun;
    }
    var found := SearchRecord(records, name.value);
    if found == None {
      flags := flags.(rcode := 3);
      return Done(Message(Header(identifier, flags, 1, 0, 0, 0), [question], []));
    }
    return Done(Message(Header(identifier, flags, 1, 1, 0, 0), [question], [Answer(found.value)]));
  }

  // The serializer.

  /** `b` with `bytes` written over it from `offset` on. */
  function Splice(b: octets, offset: nat, bytes: octets): octets
    requires offset + |bytes| <= |b|
  {
    b[..offset] + bytes + b[offset + |bytes|..]
  }

  /** Two writes one behind the other are one. */
  lemma SpliceTwice(b: octets, offset: nat, first: octets, second: octets)
    requires offset + |first + second| <= |b|
    ensures Splice(Splice(b, offset, first), offset + |first|, second) == Splice(b, offset, first + second)
  {
  }

  /** `memcpy(buffer + offset, bytes, |bytes|)`; `before` and `done` say what the writes so far
      have done, and the copy goes behind them. */
  method Copy(buffer: array<bv8>, ghost before: octets, ghost start: nat, ghost done: octets,
              offset: nat, bytes: octets)
    returns (next: nat)
    requires |before| == buffer.Length && start + |done| == offset && offset + |bytes| <= buffer.Length
    requires buffer[..] == Splice(before, start, done)
    modifies buffer
    ensures next == offset + |bytes|
    ensures buffer[..] == Splice(before, start, done + bytes)
  {
    next := offset + |bytes|;
    forall i | 0 <= i < |bytes| {
      buffer[offset + i] := bytes[i];
    }
    assert buffer[..] == Splice(old(buffer[..]), offset, bytes);
    SpliceTwice(before, start, done, bytes);
  }

  lemma EncodeNone()
    ensures EncodeLabels([]) == []
  {
  }

  lemma EncodeCons(l: Label, labels: seq<Label>)
    ensures EncodeLabels([l] + labels) == [l.size] + l.name + EncodeLabels(labels)
  {
    assert ([l] + labels)[1..] == labels;
  }

  lemma {:induction false} EncodeConcat(left: seq<Label>, right: seq<Label>)
    ensures EncodeLabels(left + right) == EncodeLabels(left) + EncodeLabels(right)
  {
    hide EncodeLabels;
    EncodeNone();
    if left == [] {
      assert left + right == right;
    } else {
      var l, tail := left[0], left[1..];
      EncodeConcat(tail, right);
      EncodeCons(l, tail);
      EncodeCons(l, tail + right);
      assert left == [l] + tail && left + right == [l] + (tail + right);
    }
  }

  lemma EncodeMore(labels: seq<Label>, i: nat)
    requires i < |labels|
    ensures EncodeLabels(labels[..i + 1]) == EncodeLabels(labels[..i]) + [labels[i].size] + labels[i].name
    ensures |EncodeLabels(labels[..i + 1])| <= |EncodeLabels(labels)|
  {
    hide EncodeLabels;
    EncodeConcat(labels[..i], [labels[i]]);
    EncodeConcat(labels[..i + 1], labels[i + 1..]);
    assert labels[..i] + [labels[i]] == labels[..i + 1];
    assert labels[..i + 1] + labels[i + 1..] == labels;
    EncodeOne(labels[i]);
  }

  lemma EncodeOne(l: Label)
    ensures EncodeLabels([l]) == [l.size] + l.name
  {
    assert [l][1..] == [];
  }

  /** The question loop: each label's size byte, then its bytes, then the closing zero. */
  method WriteName(buffer: array<bv8>, offset: nat, labels: seq<Label>) returns (next: nat)
    requires LabelsOk(labels) && offset + |EncodeName(labels)| <= buffer.Length
    modifies buffer
    ensures next == offset + |EncodeName(labels)|
    ensures buffer[..] == Splice(old(buffer[..]), offset, EncodeName(labels))
  {
    hide Splice, LabelsOk;
    ghost var before := buffer[..];
    WriteNothing(before, offset);
    next := offset;
    var i := 0;
    while i < |labels|
      invariant 0 <= i <= |labels|
      invariant |EncodeLabels(labels[..i])| <= |EncodeLabels(labels)|
      invariant next == offset + |EncodeLabels(labels[..i])|
      invariant buffer[..] == Splice(before, offset, EncodeLabels(labels[..i]))
    {
      ghost var done := EncodeLabels(labels[..i]);
      EncodeMore(labels, i);
      next := Copy(buffer, before, offset, done, next, [labels[i].size]);
      next := Copy(buffer, before, offset, done + [labels[i].size], next, labels[i].name);
      i := i + 1;
    }
    assert labels[..i] == labels;
    next := Copy(buffer, before, offset, EncodeLabels(labels), next, [0]);
  }

  lemma WriteNothing(b: octets, offset: nat)
    requires offset <= |b|
    ensures Splice(b, offset, []) == b
  {
  }

  method WriteHeader(buffer: array<bv8>, h: Header)
    requires buffer.Length >= 12
    modifies buffer
    ensures buffer[..] == Splice(old(buffer[..]), 0, HeaderBytes(h))
  {
    hide Splice, High, Low, PackFlags;
    ghost var b := buffer[..];
    WriteNothing(b, 0);
    ghost var done := Bytes16(h.identifier);
    assert [] + done == done;
    var at := Copy(buffer, b, 0, [], 0, Bytes16(h.identifier));
    at := Copy(buffer, b, 0, done, at, Bytes16(PackFlags(h.flags)));
    done := done + Bytes16(PackFlags(h.flags));
    at := Copy(buffer, b, 0, done, at, Bytes16(h.qdcount));
    done := done + Bytes16(h.qdcount);
    at := Copy(buffer, b, 0, done, at, Bytes16(h.ancount));
    done := done + Bytes16(h.ancount);
    at := Copy(buffer, b, 0, done, at, Bytes16(h.nscount));
    done := done + Bytes16(h.nscount);
    at := Copy(buffer, b, 0, done, at, Bytes16(h.arcount));
  }

  method WriteAnswer(buffer: array<bv8>, offset: nat, a: Resource) returns (next: nat)
    requires |a.name| >= 2 && offset + |AnswerBytes(a)| <= buffer.Length
    modifies buffer
    ensures next == offset + |AnswerBytes(a)|
    ensures buffer[..] == Splice(old(buffer[..]), offset, AnswerBytes(a))
  {
    hide Splice, Bytes16, Bytes32;
    ghost var b := buffer[..];
    WriteNothing(b, offset);
    next := Copy(buffer, b, offset, [], offset, [a.name[0]]);
    assert [] + [a.name[0]] == [a.name[0]];
    next := Copy(buffer, b, offset, [a.name[0]], next, [a.name[1]]);
    ghost var done := a.name[..2];
    assert [a.name[0]] + [a.name[1]] == done;
    next := Copy(buffer, b, offset, done, next, Bytes16(a.rtype));
    done := done + Bytes16(a.rtype);
    next := Copy(buffer, b, offset, done, next, Bytes16(a.rclass));
    done := done + Bytes16(a.rclass);
    next := Copy(buffer, b, offset, done, next, Bytes32(a.ttl));
    done := done + Bytes32(a.ttl);
    next := Copy(buffer, b, offset, done, next, Bytes16(a.rdlength));
    done := done + Bytes16(a.rdlength);
    next := Copy(buffer, b, offset, done, next, a.rdata);
  }

  /** `stringify_dns_message`: `Serialize(m)` over the start of the buffer, the rest untouched. */
  method Stringify(m: Message, buffer: array<bv8>) returns (offset: nat)
    requires Serializable(m) && |Serialize(m)| <= buffer.Length
    modifies buffer
    ensures offset == |Serialize(m)|
    ensures buffer[..] == Splice(old(buffer[..]), 0, Serialize(m))
  {
    hide Splice, Bytes16, EncodeName, AnswerBytes, HeaderBytes;
    ghost var b := buffer[..];
    var q := m.questions[0];
    ghost var done := HeaderBytes(m.header);
    WriteHeader(buffer, m.header);
    offset := WriteName(buffer, 12, q.labels);
    SpliceTwice(b, 0, done, EncodeName(q.labels));
    done := done + EncodeName(q.labels);
    offset := Copy(buffer, b, 0, done, offset, Bytes16(q.qtype));
    done := done + Bytes16(q.qtype);
    offset := Copy(buffer, b, 0, done, offset, Bytes16(q.qclass));
    done := done + Bytes16(q.qclass);
    assert done == HeaderBytes(m.header) + QuestionBytes(q);
    if m.header.flags.rcode != 0 {
      assert Serialize(m) == done;
      return;
    }
    offset := WriteAnswer(buffer, offset, m.answers[0]);
    SpliceTwice(b, 0, done, AnswerBytes(m.answers[0]));
    assert Serialize(m) == done + AnswerBytes(m.answers[0]);
  }
}
