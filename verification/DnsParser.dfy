/**
  The query parser. It walks a byte buffer with an offset and checks bounds late, so each
  result says whether the walk stayed inside the buffer and inside the array of labels:
  `Overread` and `Overrun` are accesses outside them, where the C program has no meaning.
 */
module DnsParser {
  import opened Wrappers
  import opened DnsWire
  import Arrays

  datatype Outcome<+T> =
    | Done(value: T)
    | Rejected       // the parser returns 1
    | Overread       // a byte outside the buffer is read
    | Overrun        // an element outside an allocated array is written

  /** Labels the doubling 8-bit capacity has room for: 10, 20, 40, 80, 160, then 320 wraps to 64. */
  const LABEL_ROOM: nat := 160

  /** How many labels lie completely inside `b` from `loc` on. */
  function LabelsAt(b: octets, loc: nat): nat
    decreases |b| - loc
  {
    if loc >= |b| || b[loc] == 0 || loc + 1 + Val(b[loc]) > |b| then 0
    else 1 + LabelsAt(b, loc + 1 + Val(b[loc]))
  }

  /** What `extract_labels` comes to. */
  function LabelsOutcome(b: octets, loc: nat): Outcome<(seq<Label>, nat)> {
    if LabelsAt(b, loc) > LABEL_ROOM then Overrun
    else
      match ReadName(b, loc)
      case None => Overread
      case Some(r) => Done(r)
  }

  function Prepend(labels: seq<Label>, r: Option<(seq<Label>, nat)>): Option<(seq<Label>, nat)> {
    match r
    case None => None
    case Some((more, next)) => Some((labels + more, next))
  }

  lemma PrependNoLabels(r: Option<(seq<Label>, nat)>)
    ensures Prepend([], r) == r
  {
    if r.Some? {
      assert [] + r.value.0 == r.value.0;
    }
  }

  lemma PrependToEnd(labels: seq<Label>, next: nat)
    ensures Prepend(labels, Some(([], next))) == Some((labels, next))
  {
    assert labels + [] == labels;
  }

  lemma PrependLabel(labels: seq<Label>, l: Label, r: Option<(seq<Label>, nat)>)
    ensures Prepend(labels, Prepend([l], r)) == Prepend(labels + [l], r)
  {
    if r.Some? {
      assert labels + ([l] + r.value.0) == labels + [l] + r.value.0;
    }
  }

  lemma ReadOneLabel(b: octets, loc: nat)
    requires loc < |b| && b[loc] != 0 && loc + 1 + Val(b[loc]) <= |b|
    ensures ReadName(b, loc)
            == Prepend([Label(b[loc], b[loc + 1..loc + 1 + Val(b[loc])])], ReadName(b, loc + 1 + Val(b[loc])))
    ensures LabelsAt(b, loc) == 1 + LabelsAt(b, loc + 1 + Val(b[loc]))
  {
  }

  lemma ReadNoLabel(b: octets, loc: nat)
    requires loc >= |b| || b[loc] == 0 || loc + 1 + Val(b[loc]) > |b|
    ensures ReadName(b, loc) == if loc < |b| && b[loc] == 0 then Some(([], loc + 1)) else None
    ensures LabelsAt(b, loc) == 0
    ensures forall labels: seq<Label> :: Prepend(labels, None) == None
  {
  }

  predicate IsCapacity(n: nat) {
    n == 10 || n == 20 || n == 40 || n == 80 || n == 160
  }

  const NO_LABEL := Label(0, [])

  method ExtractLabels(buffer: array<bv8>, start: nat) returns (r: Outcome<(seq<Label>, nat)>)
    ensures r == LabelsOutcome(buffer[..], start)
  {
    hide Val, ReadName, LabelsAt, Prepend;
    ghost var b := buffer[..];
    var labels: nat, allocatedLabels: nat, sLoc: nat := 0, 10, start;
    var labelsArray := new Label[10](i => NO_LABEL);
    PrependNoLabels(ReadName(b, start));
    assert labelsArray[..0] == [];
    while true
      invariant start <= sLoc && (sLoc == start || sLoc <= buffer.Length)
      invariant fresh(labelsArray) && labels <= allocatedLabels == labelsArray.Length
      invariant IsCapacity(allocatedLabels)
      invariant LabelsAt(b, start) == labels + LabelsAt(b, sLoc)
      invariant ReadName(b, start) == Prepend(labelsArray[..labels], ReadName(b, sLoc))
      decreases buffer.Length - sLoc
    {
      if sLoc >= buffer.Length {
        ReadNoLabel(b, sLoc);
        return Overread;
      }
      var len := buffer[sLoc];
      if len == 0 {
        ReadNoLabel(b, sLoc);
        break;
      }
      if sLoc + 1 + Val(len) > buffer.Length {
        ReadNoLabel(b, sLoc);
        return Overread;
      }
      ghost var before := labelsArray[..labels];
      var found := Label(len, buffer[sLoc + 1..sLoc + 1 + Val(len)]);
      assert found == Label(b[sLoc], b[sLoc + 1..sLoc + 1 + Val(len)]);
      ReadOneLabel(b, sLoc);
      if labels == allocatedLabels {
        allocatedLabels := allocatedLabels * 2 % 256;
        if labels >= allocatedLabels {
          return Overrun;
        }
        labelsArray := Arrays.Reallocate(labelsArray, allocatedLabels, NO_LABEL);
      }
      assert labelsArray[..labels] == before;
      Arrays.Store(labelsArray, labels, found);
      labels := (labels + 1) % 256;
      sLoc := sLoc + 1 + Val(len);
      PrependLabel(before, found, ReadName(b, sLoc));
    }
    PrependToEnd(labelsArray[..labels], sLoc + 1);
    return Done((labelsArray[..labels], sLoc + 1));
  }

  /** One question from `loc` on: its name, then type and class, read without a check. */
  function QuestionOutcome(b: octets, loc: nat): Outcome<(Question, nat)> {
    match LabelsOutcome(b, loc)
    case Done((labels, next)) =>
      if next + 4 > |b| then Overread
      else Done((Question(labels, WordAt(b, next), WordAt(b, next + 2)), next + 4))
    case Rejected => Rejected
    case Overread => Overread
    case Overrun => Overrun
  }

  function QuestionsOutcome(b: octets, loc: nat, n: nat): Outcome<(seq<Question>, nat)>
    decreases n
  {
    if n == 0 then Done(([], loc))
    else
      match QuestionOutcome(b, loc)
      case Done((q, next)) =>
        PrependQuestions([q], QuestionsOutcome(b, next, n - 1))
      case Rejected => Rejected
      case Overread => Overread
      case Overrun => Overrun
  }

  /** The first zero byte from `loc` on: `loc + strlen(buffer + loc)`. */
  function ZeroAt(b: octets, loc: nat): (r: Option<nat>)
    ensures r.Some? ==> loc <= r.value < |b|
    decreases |b| - loc
  {
    if loc >= |b| then None else if b[loc] == 0 then Some(loc) else ZeroAt(b, loc + 1)
  }

  /** Where the walk over `n` resource records ends; the C code keeps pointers to them that the
      reply never uses. */
  function SkipRecords(b: octets, loc: nat, n: nat): Outcome<nat>
    decreases n
  {
    if n == 0 then Done(loc)
    else
      match ZeroAt(b, loc)
      case None => Overread
      case Some(z) =>
        if z + 11 > |b| then Overread
        else SkipRecords(b, z + 11 + Val16(WordAt(b, z + 9)), n - 1)
  }

  /** The check before a section of records, then the walk over it. */
  function SectionOutcome(b: octets, loc: nat, n: nat): Outcome<nat> {
    if loc + n * 10 > |b| then Rejected else SkipRecords(b, loc, n)
  }

  function RecordsOutcome(b: octets, loc: nat, h: Header): Outcome<nat> {
    match SectionOutcome(b, loc, Val16(h.ancount))
    case Done(loc1) =>
      (match SectionOutcome(b, loc1, Val16(h.nscount))
       case Done(loc2) => SectionOutcome(b, loc2, Val16(h.arcount))
       case o => o)
    case o => o
  }

  /** `parse_dns_message`. */
  function ParseMessage(b: octets): Outcome<Message> {
    if |b| < 12 then Rejected
    else
      var h := ReadHeader(b);
      if 12 + Val16(h.qdcount) * 4 > |b| then Rejected
      else
        match QuestionsOutcome(b, 12, Val16(h.qdcount))
        case Rejected => Rejected
        case Overread => Overread
        case Overrun => Overrun
        case Done((qs, loc)) =>
          match RecordsOutcome(b, loc, h)
          case Rejected => Rejected
          case Overread => Overread
          case Overrun => Overrun
          case Done(_) => Done(Message(h, qs, []))
  }

  /** `strlen`, as the position of the zero; past the buffer when there is none. */
  method FindZero(buffer: array<bv8>, start: nat) returns (end: nat)
    ensures ZeroAt(buffer[..], start) == if end < buffer.Length then Some(end) else None
  {
    end := start;
    while end < buffer.Length && buffer[end] != 0
      invariant start <= end && (end == start || end <= buffer.Length)
      invariant ZeroAt(buffer[..], start) == ZeroAt(buffer[..], end)
    {
      end := end + 1;
    }
  }

  method SkipSection(buffer: array<bv8>, start: nat, n: nat) returns (r: Outcome<nat>)
    ensures r == SectionOutcome(buffer[..], start, n)
  {
    hide ZeroAt, Val16, Word;
    ghost var b := buffer[..];
    if start + n * 10 > buffer.Length {
      return Rejected;
    }
    var i: nat, sLoc: nat := 0, start;
    while i < n
      invariant i <= n
      invariant SkipRecords(b, start, n) == SkipRecords(b, sLoc, n - i)
    {
      var end := FindZero(buffer, sLoc);
      if end >= buffer.Length || end + 11 > buffer.Length {
        return Overread;
      }
      sLoc := end + 11 + Val16(Word(buffer[end + 9], buffer[end + 10]));
      i := i + 1;
    }
    return Done(sLoc);
  }

  function PrependQuestions(qs: seq<Question>, r: Outcome<(seq<Question>, nat)>): Outcome<(seq<Question>, nat)> {
    match r
    case Done((more, end)) => Done((qs + more, end))
    case Rejected => Rejected
    case Overread => Overread
    case Overrun => Overrun
  }

  lemma PrependOne(qs: seq<Question>, q: Question, r: Outcome<(seq<Question>, nat)>)
    ensures PrependQuestions(qs, PrependQuestions([q], r)) == PrependQuestions(qs + [q], r)
  {
    if r.Done? {
      assert qs + ([q] + r.value.0) == qs + [q] + r.value.0;
    }
  }

  lemma PrependNone(r: Outcome<(seq<Question>, nat)>)
    ensures PrependQuestions([], r) == r
  {
    if r.Done? {
      assert [] + r.value.0 == r.value.0;
    }
  }

  lemma SingleQuestion(b: octets, loc: nat)
    requires QuestionOutcome(b, loc).Done?
    ensures var (q, end) := QuestionOutcome(b, loc).value;
            QuestionsOutcome(b, loc, 1) == Done(([q], end))
  {
    hide QuestionOutcome;
    var (q, end) := QuestionOutcome(b, loc).value;
    assert QuestionsOutcome(b, end, 0) == Done(([], end));
    assert [q] + [] == [q];
  }

  method ExtractQuestions(buffer: array<bv8>, qdcount: nat) returns (r: Outcome<(seq<Question>, nat)>)
    ensures r == QuestionsOutcome(buffer[..], 12, qdcount)
  {
    hide LabelsOutcome;
    ghost var b := buffer[..];
    var questions: seq<Question>, sLoc: nat, i: nat := [], 12, 0;
    PrependNone(QuestionsOutcome(b, 12, qdcount));
    while i < qdcount
      invariant 0 <= i <= qdcount
      invariant QuestionsOutcome(b, 12, qdcount) == PrependQuestions(questions, QuestionsOutcome(b, sLoc, qdcount - i))
    {
      var labels := ExtractLabels(buffer, sLoc);
      if labels.Done? {
        var (name, next) := labels.value;
        if next + 4 > buffer.Length {
          return Overread;
        }
        var q := Question(name, Word(buffer[next], buffer[next + 1]), Word(buffer[next + 2], buffer[next + 3]));
        PrependOne(questions, q, QuestionsOutcome(b, next + 4, qdcount - i - 1));
        questions := questions + [q];
        sLoc := next + 4;
      } else if labels.Overread? {
        return Overread;
      } else if labels.Overrun? {
        return Overrun;
      } else {
        return Rejected;
      }
      i := i + 1;
    }
    assert questions + [] == questions;
    return Done((questions, sLoc));
  }

  method ParseDnsMessage(buffer: array<bv8>) returns (r: Outcome<Message>)
    ensures r == ParseMessage(buffer[..])
  {
    hide QuestionsOutcome, SectionOutcome, Word, UnpackFlags;
    if buffer.Length < 12 {
      return Rejected;
    }
    var identifier := Word(buffer[0], buffer[1]);
    var flags := UnpackFlags(buffer[2], buffer[3]);
    var h := Header(identifier, flags, Word(buffer[4], buffer[5]), Word(buffer[6], buffer[7]),
                    Word(buffer[8], buffer[9]), Word(buffer[10], buffer[11]));
    assert h == ReadHeader(buffer[..]);
    if 12 + Val16(h.qdcount) * 4 > buffer.Length {
      return Rejected;
    }
    var questions := ExtractQuestions(buffer, Val16(h.qdcount));
    if !questions.Done? {
      return if questions.Overread? then Overread else if questions.Overrun? then Overrun else Rejected;
    }
    var sLoc := questions.value.1;
    var section := SkipSection(buffer, sLoc, Val16(h.ancount));
    if section.Done? {
      section := SkipSection(buffer, section.value, Val16(h.nscount));
      if section.Done? {
        section := SkipSection(buffer, section.value, Val16(h.arcount));
      }
    }
    if !section.Done? {
      return if section.Overread? then Overread else if section.Overrun? then Overrun else Rejected;
    }
    return Done(Message(h, questions.value.0, []));
  }

  // The properties of the label loop.

  lemma {:induction false} LabelsCounted(b: octets, loc: nat)
    requires ReadName(b, loc).Some?
    ensures |ReadName(b, loc).value.0| == LabelsAt(b, loc)
    decreases |b| - loc
  {
    hide Val;
    if b[loc] != 0 {
      LabelsCounted(b, loc + 1 + Val(b[loc]));
    }
  }

  lemma {:induction false} EncodedLength(labels: seq<Label>)
    requires LabelsOk(labels)
    ensures |EncodeLabels(labels)| >= 2 * |labels|
  {
    hide Val;
    if labels != [] {
      assert LabelOk(labels[0]);
      EncodedLength(labels[1..]);
    }
  }

  /** The loop succeeds exactly for a name that ends inside the buffer and has at most 160
      labels; it then advances by the encoded length and stores the labels it read. */
  lemma LabelLoopIff(b: octets, loc: nat)
    ensures LabelsOutcome(b, loc).Done?
            <==> ReadName(b, loc).Some? && |ReadName(b, loc).value.0| <= LABEL_ROOM
    ensures LabelsOutcome(b, loc).Done? ==>
              var (labels, next) := LabelsOutcome(b, loc).value;
              next == loc + |EncodeName(labels)| && b[loc..next] == EncodeName(labels) && LabelsOk(labels)
  {
    hide ReadName, LabelsAt, EncodeName;
    if ReadName(b, loc).Some? {
      LabelsCounted(b, loc);
      EncodeOfRead(b, loc);
    }
  }

  /** A name within the 255 octets of section 2.3.4 of RFC 1035 has at most 127 labels, so the
      loop never leaves the label array and the 8-bit count and capacity never wrap. */
  lemma LegalNameParses(b: octets, loc: nat)
    requires ReadName(b, loc).Some? && ReadName(b, loc).value.1 - loc <= 255
    ensures LabelsOutcome(b, loc) == Done(ReadName(b, loc).value)
    ensures |ReadName(b, loc).value.0| <= 127
  {
    hide ReadName, LabelsAt;
    var (labels, next) := ReadName(b, loc).value;
    EncodeOfRead(b, loc);
    EncodedLength(labels);
    LabelsCounted(b, loc);
  }

  /** Type and class are the two big-endian words behind the name. */
  lemma QuestionLayout(b: octets, loc: nat)
    requires QuestionOutcome(b, loc).Done?
    ensures var (q, end) := QuestionOutcome(b, loc).value;
            && loc + 5 <= end <= |b|
            && Val16(q.qtype) == Val(b[end - 4]) * 256 + Val(b[end - 3])
            && Val16(q.qclass) == Val(b[end - 2]) * 256 + Val(b[end - 1])
  {
    hide LabelsOutcome, ReadName, EncodeLabels, Word, Val, Val16;
    LabelLoopIff(b, loc);
    var next := LabelsOutcome(b, loc).value.1;
    WordValue(b[next], b[next + 1]);
    WordValue(b[next + 2], b[next + 3]);
  }

  /** The string functions stop at the first zero byte, if there is one. */
  lemma {:induction false} ZeroAtIff(b: octets, loc: nat, z: nat)
    ensures ZeroAt(b, loc) == Some(z) <==> loc <= z < |b| && b[z] == 0 && forall k :: loc <= k < z ==> b[k] != 0
    decreases |b| - loc
  {
    if loc < |b| && b[loc] != 0 {
      ZeroAtIff(b, loc + 1, z);
    }
  }

  /** `n` labels lie completely inside `b` from `loc` on. */
  ghost predicate Holds(b: octets, loc: nat, n: nat) {
    exists labels :: |labels| == n && LabelsOk(labels) && loc <= |b| && EncodeLabels(labels) <= b[loc..]
  }

  lemma {:induction false} HeldAreCounted(b: octets, loc: nat, labels: seq<Label>)
    requires LabelsOk(labels) && loc <= |b| && EncodeLabels(labels) <= b[loc..]
    ensures LabelsAt(b, loc) >= |labels|
    decreases |labels|
  {
    hide Val;
    if labels != [] {
      var l, tail := labels[0], labels[1..];
      assert LabelOk(l);
      var all := EncodeLabels(labels);
      assert all == [l.size] + l.name + EncodeLabels(tail);
      assert b[loc] == b[loc..][0] == l.size;
      var next := loc + 1 + Val(l.size);
      assert EncodeLabels(tail) == all[1 + |l.name|..] <= b[loc..][1 + |l.name|..] == b[next..];
      HeldAreCounted(b, next, tail);
    }
  }

  lemma {:induction false} CountedAreHeld(b: octets, loc: nat, n: nat) returns (labels: seq<Label>)
    requires n <= LabelsAt(b, loc) && loc <= |b|
    ensures |labels| == n && LabelsOk(labels) && EncodeLabels(labels) <= b[loc..]
    decreases n
  {
    hide Val;
    if n == 0 {
      labels := [];
    } else {
      var next := loc + 1 + Val(b[loc]);
      var l := Label(b[loc], b[loc + 1..next]);
      var tail := CountedAreHeld(b, next, n - 1);
      labels := [l] + tail;
      assert labels[1..] == tail;
      assert b[loc..] == [l.size] + l.name + b[next..];
    }
  }

  /** The label loop writes past its array exactly when more than 160 labels lie inside the buffer;
      short of that it reads past the buffer exactly when the name does not end inside it. */
  lemma LabelFaultsIff(b: octets, loc: nat)
    requires loc <= |b|
    ensures LabelsOutcome(b, loc) == Overrun <==> Holds(b, loc, 161)
    ensures LabelsOutcome(b, loc) == Overread <==> !Holds(b, loc, 161) && ReadName(b, loc) == None
  {
    hide ReadName, LabelsAt, EncodeLabels;
    if LabelsAt(b, loc) > 160 {
      var labels := CountedAreHeld(b, loc, 161);
    }
    if labels :| |labels| == 161 && LabelsOk(labels) && EncodeLabels(labels) <= b[loc..] {
      HeldAreCounted(b, loc, labels);
    }
  }
}
