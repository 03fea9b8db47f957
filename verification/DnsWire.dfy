/**
  DNS messages and their wire form (sections 3.1, 4.1.1 and 4.1.2 of RFC 1035): 16-bit
  numbers with the high byte first, the packed flag word, and names as length-prefixed
  labels closed by a zero byte.
 */
module DnsWire {
  import opened Wrappers

  type octets = seq<bv8>

  /** The fields of the flag word; each is as wide as its bit field in the C struct. */
  datatype Flags = Flags(qr: bv8, opcode: bv8, aa: bv8, tc: bv8, rd: bv8, ra: bv8, z: bv8, rcode: bv8)

  datatype Header = Header(identifier: bv16, flags: Flags, qdcount: bv16, ancount: bv16, nscount: bv16, arcount: bv16)

  /** A label: its bytes and the 8-bit size stored beside them. */
  datatype Label = Label(size: bv8, name: octets)

  datatype Question = Question(labels: seq<Label>, qtype: bv16, qclass: bv16)

  datatype Resource = Resource(name: octets, rtype: bv16, rclass: bv16, ttl: bv32, rdlength: bv16, rdata: octets)

  datatype Message = Message(header: Header, questions: seq<Question>, answers: seq<Resource>)

  const TYPE_A: bv16 := 1

  const CLASS_IN: bv16 := 1

  function Val(b: bv8): (n: nat)
    ensures n < 256
    ensures n == 0 <==> b == 0
  {
    b as nat
  }

  function Val16(w: bv16): (n: nat)
    ensures n < 65536
    ensures n == 0 <==> w == 0
    ensures n == 1 <==> w == 1
  {
    w as nat
  }

  function High(w: bv16): bv8 {
    (w >> 8) as bv8
  }

  function Low(w: bv16): bv8 {
    (w & 0xFF) as bv8
  }

  /** `high << 8 | low`. */
  function Word(high: bv8, low: bv8): bv16 {
    ((high as bv16) << 8) | (low as bv16)
  }

  lemma WordOfHalves(w: bv16)
    ensures Word(High(w), Low(w)) == w
  {
  }

  lemma HalvesOfWord(high: bv8, low: bv8)
    ensures High(Word(high, low)) == high && Low(Word(high, low)) == low
  {
  }

  /** `htons` followed by a two-byte copy. */
  function Bytes16(w: bv16): (b: octets)
    ensures |b| == 2
  {
    [High(w), Low(w)]
  }

  /** `htonl` followed by a four-byte copy. */
  function Bytes32(w: bv32): (b: octets)
    ensures |b| == 4
  {
    [(w >> 24) as bv8, ((w >> 16) & 0xFF) as bv8, ((w >> 8) & 0xFF) as bv8, (w & 0xFF) as bv8]
  }

  function Word32(b: octets): bv32
    requires |b| == 4
  {
    ((b[0] as bv32) << 24) | ((b[1] as bv32) << 16) | ((b[2] as bv32) << 8) | (b[3] as bv32)
  }

  lemma Word32OfBytes(w: bv32)
    ensures Word32(Bytes32(w)) == w
  {
  }

  // Flags.

  /** `extract_flags`. */
  function UnpackFlags(high: bv8, low: bv8): Flags {
    Flags(high >> 7, (high >> 3) & 0xF, (high >> 2) & 0x1, (high >> 1) & 0x1, high & 0x1,
          low >> 7, (low >> 4) & 0x7, low & 0xF)
  }

  /** `concatenateFlags`. */
  function PackFlags(f: Flags): bv16 {
    ((f.qr as bv16 & 0x01) << 15)
    | ((f.opcode as bv16 & 0x0F) << 11)
    | ((f.aa as bv16 & 0x01) << 10)
    | ((f.tc as bv16 & 0x01) << 9)
    | ((f.rd as bv16 & 0x01) << 8)
    | ((f.ra as bv16 & 0x01) << 7)
    | ((f.z as bv16 & 0x07) << 4)
    | (f.rcode as bv16 & 0x0F)
  }

  /** What the bit fields can hold. */
  predicate FlagsInRange(f: Flags) {
    f.qr < 2 && f.opcode < 16 && f.aa < 2 && f.tc < 2 && f.rd < 2 && f.ra < 2 && f.z < 8 && f.rcode < 16
  }

  /** Flags that fit their fields survive packing and unpacking. */
  lemma UnpackOfPack(f: Flags)
    ensures UnpackFlags(High(PackFlags(f)), Low(PackFlags(f))) == f <==> FlagsInRange(f)
  {
  }

  /** Every flag word survives unpacking and packing, and unpacks to fields in range. */
  lemma PackOfUnpack(high: bv8, low: bv8)
    ensures PackFlags(UnpackFlags(high, low)) == Word(high, low)
    ensures FlagsInRange(UnpackFlags(high, low))
  {
  }

  // Names.

  predicate LabelOk(l: Label) {
    l.size != 0 && |l.name| == Val(l.size)
  }

  predicate LabelsOk(labels: seq<Label>) {
    forall i :: 0 <= i < |labels| ==> LabelOk(labels[i])
  }

  function EncodeLabels(labels: seq<Label>): octets {
    if labels == [] then [] else [labels[0].size] + labels[0].name + EncodeLabels(labels[1..])
  }

  /** A name: its labels and the closing zero. */
  function EncodeName(labels: seq<Label>): octets {
    EncodeLabels(labels) + [0]
  }

  /** The labels from `loc` up to a zero byte, and the position after it; `None` when the
      name does not end inside `b`. Every length byte counts as a plain length. */
  function ReadName(b: octets, loc: nat): (r: Option<(seq<Label>, nat)>)
    ensures r.Some? ==> loc < r.value.1 <= |b|
    decreases |b| - loc
  {
    if loc >= |b| then None
    else if b[loc] == 0 then Some(([], loc + 1))
    else if loc + 1 + Val(b[loc]) > |b| then None
    else
      match ReadName(b, loc + 1 + Val(b[loc]))
      case None => None
      case Some((labels, next)) => Some(([Label(b[loc], b[loc + 1..loc + 1 + Val(b[loc])])] + labels, next))
  }

  lemma EncodeFirst(l: Label, labels: seq<Label>)
    ensures EncodeName([l] + labels) == [l.size] + l.name + EncodeName(labels)
  {
    assert ([l] + labels)[1..] == labels;
  }

  /** What was read is what is there. */
  lemma {:induction false} EncodeOfRead(b: octets, loc: nat)
    requires ReadName(b, loc).Some?
    ensures var (labels, next) := ReadName(b, loc).value;
            LabelsOk(labels) && EncodeName(labels) == b[loc..next]
    decreases |b| - loc
  {
    hide Val, EncodeLabels, EncodeName;
    var (labels, next) := ReadName(b, loc).value;
    if b[loc] == 0 {
      EmptyName();
    } else {
      var mid := loc + 1 + Val(b[loc]);
      var l := Label(b[loc], b[loc + 1..mid]);
      var tail := ReadName(b, mid).value.0;
      EncodeOfRead(b, mid);
      EncodeFirst(l, tail);
      assert labels == [l] + tail;
      assert b[loc..next] == [b[loc]] + b[loc + 1..mid] + b[mid..next];
    }
  }

  lemma EmptyName()
    ensures EncodeName([]) == [0]
  {
  }

  /** What was written is read back, whatever follows it. */
  lemma {:induction false} ReadOfEncoded(before: octets, labels: seq<Label>, rest: octets)
    requires LabelsOk(labels)
    ensures ReadName(before + EncodeName(labels) + rest, |before|)
            == Some((labels, |before| + |EncodeName(labels)|))
    decreases |labels|
  {
    hide Val, EncodeLabels, EncodeName;
    var b := before + EncodeName(labels) + rest;
    var loc := |before|;
    if labels == [] {
      EmptyName();
      assert b[loc] == 0;
    } else {
      var l, tail := labels[0], labels[1..];
      var head := [l.size] + l.name;
      assert labels == [l] + tail;
      EncodeFirst(l, tail);
      assert b == (before + head) + EncodeName(tail) + rest;
      ReadOfEncoded(before + head, tail, rest);
      assert LabelOk(l);
      assert b[loc] == l.size;
      assert b[loc + 1..loc + 1 + Val(l.size)] == l.name;
    }
  }

  // Messages.

  function HeaderBytes(h: Header): (b: octets)
    ensures |b| == 12
  {
    Bytes16(h.identifier) + Bytes16(PackFlags(h.flags)) + Bytes16(h.qdcount) + Bytes16(h.ancount)
    + Bytes16(h.nscount) + Bytes16(h.arcount)
  }

  function WordAt(b: octets, loc: nat): bv16
    requires loc + 2 <= |b|
  {
    Word(b[loc], b[loc + 1])
  }

  function ReadHeader(b: octets): Header
    requires |b| >= 12
  {
    Header(WordAt(b, 0), UnpackFlags(b[2], b[3]), WordAt(b, 4), WordAt(b, 6), WordAt(b, 8), WordAt(b, 10))
  }

  function QuestionBytes(q: Question): octets {
    EncodeName(q.labels) + Bytes16(q.qtype) + Bytes16(q.qclass)
  }

  /** Only the first two bytes of the name are written: it is a compression pointer. */
  function AnswerBytes(a: Resource): octets
    requires |a.name| >= 2
  {
    a.name[..2] + Bytes16(a.rtype) + Bytes16(a.rclass) + Bytes32(a.ttl) + Bytes16(a.rdlength) + a.rdata
  }

  predicate Serializable(m: Message) {
    && m.questions != [] && LabelsOk(m.questions[0].labels)
    && (m.header.flags.rcode == 0 ==>
          m.answers != [] && |m.answers[0].name| >= 2 && |m.answers[0].rdata| == Val16(m.answers[0].rdlength))
  }

  /** The bytes `stringify_dns_message` writes. */
  function Serialize(m: Message): octets
    requires Serializable(m)
  {
    HeaderBytes(m.header) + QuestionBytes(m.questions[0])
    + if m.header.flags.rcode != 0 then [] else AnswerBytes(m.answers[0])
  }

  lemma HeaderRoundTrip(h: Header, rest: octets)
    requires FlagsInRange(h.flags)
    ensures ReadHeader(HeaderBytes(h) + rest) == h
  {
    hide High, Low, Word, PackFlags, UnpackFlags;
    UnpackOfPack(h.flags);
    WordOfHalves(h.identifier);
    WordOfHalves(h.qdcount);
    WordOfHalves(h.ancount);
    WordOfHalves(h.nscount);
    WordOfHalves(h.arcount);
  }

  lemma BytesOfHeader(b: octets)
    requires |b| >= 12
    ensures HeaderBytes(ReadHeader(b)) == b[..12]
  {
    hide High, Low, Word, PackFlags, UnpackFlags;
    PackOfUnpack(b[2], b[3]);
    HalvesOfWord(b[0], b[1]);
    HalvesOfWord(b[2], b[3]);
    HalvesOfWord(b[4], b[5]);
    HalvesOfWord(b[6], b[7]);
    HalvesOfWord(b[8], b[9]);
    HalvesOfWord(b[10], b[11]);
  }

  // What the numbers mean: the layout of sections 4.1.1 and 4.1.2 of RFC 1035.

  /** Two bytes hold a number, the high byte first. */
  lemma WordIsBigEndian(w: bv16, high: bv8, low: bv8)
    ensures Val16(Word(high, low)) == Val(high) * 256 + Val(low)
    ensures Bytes16(w) == [High(w), Low(w)] && Val16(w) == Val(High(w)) * 256 + Val(Low(w))
  {
    WordValue(high, low);
    WordValue(High(w), Low(w));
    WordOfHalves(w);
  }

  lemma WordValue(high: bv8, low: bv8)
    ensures Val16(Word(high, low)) == Val(high) * 256 + Val(low)
  {
    hide Val, Val16;
    WidenValue(high);
    WidenValue(low);
    SumOfHalves(high as bv16, low as bv16);
    SumInRange(high as bv16, low as bv16);
  }

  lemma WidenValue(x: bv8)
    ensures x as bv16 < 256 && Val16(x as bv16) == Val(x)
  {
  }

  lemma SumOfHalves(h: bv16, l: bv16)
    requires h < 256 && l < 256
    ensures (h << 8) | l == h * 256 + l
  {
  }

  lemma SumInRange(h: bv16, l: bv16)
    requires h < 256 && l < 256
    ensures Val16(h * 256 + l) == Val16(h) * 256 + Val16(l)
  {
  }

  /** Where each flag stands in the word of section 4.1.1. */
  lemma FlagLayout(high: bv8, low: bv8)
    ensures var f := UnpackFlags(high, low);
            && high == f.qr * 128 + f.opcode * 8 + f.aa * 4 + f.tc * 2 + f.rd
            && low == f.ra * 128 + f.z * 16 + f.rcode
            && FlagsInRange(f)
  {
  }

  /** The six words of the header and where they stand. */
  lemma HeaderLayout(b: octets)
    requires |b| >= 12
    ensures var h := ReadHeader(b);
            && Val16(h.identifier) == Val(b[0]) * 256 + Val(b[1])
            && h.flags == UnpackFlags(b[2], b[3])
            && Val16(h.qdcount) == Val(b[4]) * 256 + Val(b[5])
            && Val16(h.ancount) == Val(b[6]) * 256 + Val(b[7])
            && Val16(h.nscount) == Val(b[8]) * 256 + Val(b[9])
            && Val16(h.arcount) == Val(b[10]) * 256 + Val(b[11])
  {
    hide Word, Val, Val16, UnpackFlags;
    WordValue(b[0], b[1]);
    WordValue(b[4], b[5]);
    WordValue(b[6], b[7]);
    WordValue(b[8], b[9]);
    WordValue(b[10], b[11]);
  }

  /** Four bytes hold a number, the highest byte first. */
  lemma LongWordIsBigEndian(w: bv32)
    ensures var b := Bytes32(w);
            w == (b[0] as bv32) * 0x100_0000 + (b[1] as bv32) * 0x1_0000 + (b[2] as bv32) * 0x100 + (b[3] as bv32)
  {
  }
}
