/**
  STUN messages and their wire form: a 20-byte header in the layout of section 6 of
  RFC 5389, then the payload text.
 */
module StunCodec {
  import opened Wrappers
  import opened Utf8
  import opened BitStrings

  datatype MessageType = Request | SuccessResponse | ErrorResponse | Indication

  /** The fourteen type bits. */
  function TypeBits(t: MessageType): (s: string)
    ensures |s| == 14 && AllBits(s)
  {
    match t
    case Request => "00000000000000"
    case SuccessResponse => "00000100000000"
    case ErrorResponse => "00000100010000"
    case Indication => "00000000010000"
  }

  /** `StunMessageType.from_string`; `None` is the ValueError. */
  function TypeFromString(s: string): Option<MessageType> {
    if s == TypeBits(Request) then Some(Request)
    else if s == TypeBits(SuccessResponse) then Some(SuccessResponse)
    else if s == TypeBits(ErrorResponse) then Some(ErrorResponse)
    else if s == TypeBits(Indication) then Some(Indication)
    else None
  }

  const MAGIC_COOKIE: nat := 0x2112_A442

  /** A message; type and transaction id are unset until a setter gives them. */
  datatype Message = Message(messageType: Option<MessageType>, transactionId: Option<nat>, payload: string)

  /** The header as a string of bits; `None` where printing a field raises. */
  function HeaderBits(m: Message): Option<string> {
    if m.messageType == None || m.transactionId == None then None
    else
      var length := IntToByteStr(|m.payload|, 16);
      var cookie := IntToByteStr(MAGIC_COOKIE, 32);
      var id := IntToByteStr(m.transactionId.value, 96);
      if length == None || cookie == None || id == None then None
      else Some("00" + TypeBits(m.messageType.value) + length.value + cookie.value + id.value)
  }

  /** What `encode` can represent. */
  predicate Encodable(m: Message) {
    && m.messageType.Some?
    && m.transactionId.Some? && m.transactionId.value < Pow2(96)
    && |m.payload| < 65536
  }

  lemma Powers()
    ensures Pow2(16) == 65536 && Pow2(32) == 0x1_0000_0000
  {
    assert Pow2(4) == 16;
    assert Pow2(8) == 256;
    assert Pow2(12) == 4096;
    assert Pow2(16) == 65536;
    assert Pow2(20) == 0x10_0000;
    assert Pow2(24) == 0x100_0000;
    assert Pow2(28) == 0x1000_0000;
  }

  /** The header is printed exactly when the message is encodable, in these fields. */
  lemma HeaderFields(m: Message)
    ensures HeaderBits(m).Some? <==> Encodable(m)
    ensures Encodable(m) ==>
              var h := HeaderBits(m).value;
              && |h| == 160 && AllBits(h)
              && h[..2] == "00" && h[2..16] == TypeBits(m.messageType.value)
              && BinaryStringToInt(h[16..32]) == Some(|m.payload|)
              && BinaryStringToInt(h[32..64]) == Some(MAGIC_COOKIE)
              && IdOf(h[64..]) == m.transactionId
  {
    hide Pow2, IntToByteStr, BinaryStringToInt, TypeBits;
    Powers();
    PrintedAtWidth(|m.payload|, 16);
    PrintedAtWidth(MAGIC_COOKIE, 32);
    if m.transactionId.Some? {
      PrintedAtWidth(m.transactionId.value, 96);
    }
    if Encodable(m) {
      var h := HeaderBits(m).value;
      assert h[16..32] == IntToByteStr(|m.payload|, 16).value;
      assert h[32..64] == IntToByteStr(MAGIC_COOKIE, 32).value;
      assert h[64..] == IntToByteStr(m.transactionId.value, 96).value;
    }
  }

  lemma HeaderShape(m: Message)
    ensures HeaderBits(m).Some? <==> Encodable(m)
    ensures HeaderBits(m).Some? ==> |HeaderBits(m).value| == 160 && AllBits(HeaderBits(m).value)
  {
    hide HeaderBits, TypeBits, BinaryStringToInt, Pow2;
    HeaderFields(m);
  }

  lemma HeaderIsOctets(m: Message)
    ensures HeaderBits(m).Some? ==> |HeaderBits(m).value| == 160 && AllBits(HeaderBits(m).value)
  {
    hide HeaderBits, Encodable;
    HeaderShape(m);
  }

  /** `encode`; `None` where it raises. */
  function EncodeMessage(m: Message): Option<bytes> {
    HeaderIsOctets(m);
    match HeaderBits(m)
    case None => None
    case Some(h) => Some(Octets(h) + Encode(m.payload))
  }

  function Min(a: nat, b: nat): nat {
    if a < b then a else b
  }

  /** `s[lo:hi]` with both ends clamped to the string. */
  function Slice(s: string, lo: nat, hi: nat): string {
    if lo >= |s| || lo >= hi then "" else s[lo..Min(hi, |s|)]
  }

  /** `s[lo:]`, clamped likewise. */
  function SliceFrom(s: string, lo: nat): string {
    if lo >= |s| then "" else s[lo..]
  }

  /** The header bits of a datagram that may be too short. */
  function HeaderOf(b: bytes): string {
    BitsOf(b[..Min(20, |b|)])
  }

  /** The transaction id in its 96 bits; a datagram that ends before them has none. */
  function IdOf(bits: string): Option<nat> {
    match BinaryStringToInt(bits)
    case None => None
    case Some(n) => if n >= 0 then Some(n) else None
  }

  /** `decode`; `None` where the type is unknown or the payload is not text. */
  function DecodeMessage(b: bytes): Option<Message> {
    var header := HeaderOf(b);
    match TypeFromString(Slice(header, 2, 16))
    case None => None
    case Some(t) =>
      match Decode(b[Min(20, |b|)..])
      case None => None
      case Some(payload) => Some(Message(Some(t), IdOf(SliceFrom(header, 64)), payload))
  }

  lemma TypeRoundTrip(t: MessageType)
    ensures TypeFromString(TypeBits(t)) == Some(t)
  {
    assert TypeBits(Request)[5] != TypeBits(SuccessResponse)[5];
    assert TypeBits(Request)[5] != TypeBits(ErrorResponse)[5];
    assert TypeBits(Request)[9] != TypeBits(Indication)[9];
    assert TypeBits(SuccessResponse)[9] != TypeBits(ErrorResponse)[9];
    assert TypeBits(SuccessResponse)[5] != TypeBits(Indication)[5];
    assert TypeBits(ErrorResponse)[5] != TypeBits(Indication)[5];
  }

  /** Encoding succeeds exactly for encodable messages. */
  lemma EncodesIff(m: Message)
    ensures EncodeMessage(m).Some? <==> Encodable(m)
  {
    hide HeaderBits, Encodable, Octets, Encode;
    HeaderShape(m);
  }

  /** Behind the header of a message, any text is decoded as its payload. */
  lemma DecodeWithPayload(m: Message, h: string, tail: bytes, text: string)
    requires HeaderBits(m) == Some(h) && |h| == 160 && AllBits(h) && Decode(tail) == Some(text)
    ensures DecodeMessage(Octets(h) + tail) == Some(m.(payload := text))
  {
    hide Decode, Octets, BitsOf, HeaderBits, BinaryStringToInt, TypeBits, TypeFromString, IdOf, Pow2;
    HeaderFields(m);
    var b := Octets(h) + tail;
    BitsOfOctets(h);
    assert b[..20] == Octets(h) && b[20..] == tail;
    TypeRoundTrip(m.messageType.value);
    assert Slice(h, 2, 16) == h[2..16] && SliceFrom(h, 64) == h[64..];
  }

  /** Decoding what was encoded gives the message back. */
  lemma DecodeOfEncoded(m: Message)
    requires Encodable(m)
    ensures EncodeMessage(m).Some? && DecodeMessage(EncodeMessage(m).value) == Some(m)
  {
    hide Decode, Encode, Octets, HeaderBits, DecodeMessage, Encodable;
    EncodesIff(m);
    HeaderIsOctets(m);
    DecodeOfEncode(m.payload);
    DecodeWithPayload(m, HeaderBits(m).value, Encode(m.payload), m.payload);
  }

  /** The two type bytes RFC 5389 gives to these classes with method 0. */
  function TypeCode(t: MessageType): nat {
    match t
    case Request => 0x0000
    case SuccessResponse => 0x0100
    case ErrorResponse => 0x0110
    case Indication => 0x0010
  }

  lemma ByteOfNibbles(s: string)
    requires AllBits(s) && |s| == 8
    ensures ByteOf(s) == FourBits(s[0], s[1], s[2], s[3]) * 16 + FourBits(s[4], s[5], s[6], s[7])
  {
    hide FourBits;
    var high, low := s[..4], s[4..];
    assert s == high + low;
    ValueOfConcat(high, low);
    assert Pow2(4) == 16;
    FourBitsValue(high);
    FourBitsValue(low);
  }

  lemma TypeCodeOfBits(t: MessageType)
    ensures AllBits("00" + TypeBits(t)) && Octets("00" + TypeBits(t)) == BigEndian(TypeCode(t), 2)
  {
    hide ByteOf, Pow2, BitsValue;
    var s := "00" + TypeBits(t);
    var high, low := s[..8], s[8..];
    assert low[..8] == low;
    assert Octets(low) == [ByteOf(low)];
    assert Octets(s) == [ByteOf(high)] + Octets(low);
    ByteOfNibbles(high);
    ByteOfNibbles(low);
    assert ByteOf(high) == TypeCode(t) / 256 && ByteOf(low) == TypeCode(t) % 256;
    TwoBytes(TypeCode(t));
  }

  lemma TwoBytes(n: nat)
    requires n < 65536
    ensures BigEndian(n, 2) == [n / 256, n % 256]
  {
    assert BigEndian(n / 256, 1) == [n / 256];
  }

  function FourBits(a: char, b: char, c: char, d: char): nat {
    (if a == '1' then 8 else 0) + (if b == '1' then 4 else 0)
    + (if c == '1' then 2 else 0) + (if d == '1' then 1 else 0)
  }

  lemma FourBitsValue(s: string)
    requires AllBits(s) && |s| == 4
    ensures BitsValue(s) == FourBits(s[0], s[1], s[2], s[3])
  {
    hide BitsValue;
    NoOctets();
    ValueOfAppended([], s[0]);
    ValueOfAppended([s[0]], s[1]);
    ValueOfAppended([s[0], s[1]], s[2]);
    ValueOfAppended([s[0], s[1], s[2]], s[3]);
    assert [] + [s[0]] == [s[0]] && [s[0]] + [s[1]] == [s[0], s[1]];
    assert [s[0], s[1]] + [s[2]] == [s[0], s[1], s[2]] && [s[0], s[1], s[2]] + [s[3]] == s;
  }

  /** The wire form: type, length, cookie and transaction id as big-endian numbers of
      2, 2, 4 and 12 bytes, then the payload. The length field counts characters. */
  lemma WireLayout(m: Message)
    requires Encodable(m)
    ensures EncodeMessage(m).Some?
    ensures EncodeMessage(m).value
            == BigEndian(TypeCode(m.messageType.value), 2) + BigEndian(|m.payload|, 2)
               + [0x21, 0x12, 0xA4, 0x42] + BigEndian(m.transactionId.value, 12) + Encode(m.payload)
  {
    hide Pow2, IntToByteStr, BitsValue, TypeBits, TypeCode, Octets, BigEndian, Encode;
    HeaderFields(m);
    var kind := "00" + TypeBits(m.messageType.value);
    Powers();
    PrintedAtWidth(|m.payload|, 16);
    PrintedAtWidth(MAGIC_COOKIE, 32);
    PrintedAtWidth(m.transactionId.value, 96);
    var length := IntToByteStr(|m.payload|, 16).value;
    var cookie := IntToByteStr(MAGIC_COOKIE, 32).value;
    var id := IntToByteStr(m.transactionId.value, 96).value;
    TypeCodeOfBits(m.messageType.value);
    OctetsAreBigEndian(length);
    OctetsAreBigEndian(cookie);
    OctetsAreBigEndian(id);
    OctetsOfConcat(kind, length);
    OctetsOfConcat(kind + length, cookie);
    OctetsOfConcat(kind + length + cookie, id);
    CookieBytes();
  }

  lemma CookieBytes()
    ensures BigEndian(MAGIC_COOKIE, 4) == [0x21, 0x12, 0xA4, 0x42]
  {
    assert BigEndian(0x21, 1) == [0x21];
    assert BigEndian(0x2112, 2) == [0x21, 0x12];
    assert BigEndian(0x2112A4, 3) == [0x21, 0x12, 0xA4];
  }

  /** The parts of the header that `decode` does not look at are what `encode` would write. */
  predicate HeaderCanonical(b: bytes, payload: string) {
    var h := HeaderOf(b);
    && |b| >= 20
    && Slice(h, 0, 2) == "00"
    && BinaryStringToInt(Slice(h, 16, 32)) == Some(|payload|)
    && BinaryStringToInt(Slice(h, 32, 64)) == Some(MAGIC_COOKIE)
  }

  lemma EncodedIsCanonical(b: bytes)
    requires DecodeMessage(b).Some?
    requires EncodeMessage(DecodeMessage(b).value) == Some(b)
    ensures HeaderCanonical(b, DecodeMessage(b).value.payload)
  {
    hide Pow2, Decode, Encode, Octets, BitsOf, HeaderBits, BinaryStringToInt, TypeBits, TypeFromString,
         DecodeMessage;
    var m := DecodeMessage(b).value;
    EncodesIff(m);
    HeaderFields(m);
    var h := HeaderBits(m).value;
    BitsOfOctets(h);
    assert b[..20] == Octets(h);
    assert HeaderOf(b) == h;
  }

  lemma TypeOfString(s: string)
    requires TypeFromString(s).Some?
    ensures s == TypeBits(TypeFromString(s).value)
  {
    hide TypeBits;
  }

  /** A header whose fields are those of `m` is what is printed for `m`. */
  lemma HeaderReprinted(h: string, m: Message)
    requires |h| == 160 && AllBits(h) && h[..2] == "00"
    requires TypeFromString(h[2..16]).Some? && m.messageType == TypeFromString(h[2..16])
    requires BinaryStringToInt(h[16..32]) == Some(|m.payload|)
    requires BinaryStringToInt(h[32..64]) == Some(MAGIC_COOKIE)
    requires IdOf(h[64..]) == m.transactionId
    ensures HeaderBits(m) == Some(h)
  {
    hide TypeBits, TypeFromString, IntToByteStr, BinaryStringToInt;
    TypeOfString(h[2..16]);
    PrintOfRead(h[16..32]);
    PrintOfRead(h[32..64]);
    PrintOfRead(h[64..]);
    assert h == h[..2] + h[2..16] + h[16..32] + h[32..64] + h[64..];
  }

  lemma SlicesOfHeader(h: string)
    requires |h| == 160
    ensures Slice(h, 0, 2) == h[..2] && Slice(h, 2, 16) == h[2..16]
    ensures Slice(h, 16, 32) == h[16..32] && Slice(h, 32, 64) == h[32..64] && SliceFrom(h, 64) == h[64..]
  {
  }

  lemma CanonicalIsEncoded(b: bytes)
    requires DecodeMessage(b).Some?
    requires HeaderCanonical(b, DecodeMessage(b).value.payload)
    ensures EncodeMessage(DecodeMessage(b).value) == Some(b)
  {
    hide Decode, Encode, Octets, BitsOf, BinaryStringToInt, IdOf, TypeFromString, HeaderBits, Slice, SliceFrom;
    var m := DecodeMessage(b).value;
    var h := HeaderOf(b);
    OctetsOfBits(b[..20]);
    SlicesOfHeader(h);
    HeaderReprinted(h, m);
    EncodeOfDecode(b[20..]);
    assert b == b[..20] + b[20..];
  }

  /** Re-encoding a received message gives the received bytes exactly when the parts of the
      header that `decode` ignores are what `encode` would write. */
  lemma EncodeOfDecoded(b: bytes)
    requires DecodeMessage(b).Some?
    ensures EncodeMessage(DecodeMessage(b).value) == Some(b)
            <==> HeaderCanonical(b, DecodeMessage(b).value.payload)
  {
    hide DecodeMessage, EncodeMessage, HeaderCanonical;
    if EncodeMessage(DecodeMessage(b).value) == Some(b) {
      EncodedIsCanonical(b);
    }
    if HeaderCanonical(b, DecodeMessage(b).value.payload) {
      CanonicalIsEncoded(b);
    }
  }

  // What `decode` reads of any bytes.

  lemma TypeBitsValue(t: MessageType)
    ensures BitsValue(TypeBits(t)) == TypeCode(t) && TypeCode(t) < 16384
  {
    hide BitsValue, TypeBits, Octets;
    var s := "0" + TypeBits(t);
    LeadingZero(TypeBits(t));
    LeadingZero(s);
    assert "0" + s == "00" + TypeBits(t);
    TypeCodeOfBits(t);
    OctetsAreBigEndian("00" + TypeBits(t));
    TypeCodesSmall(t);
    TwoBytes(TypeCode(t));
    ValueBelow("00" + TypeBits(t));
    Powers();
    TwoBytes(BitsValue("00" + TypeBits(t)));
  }

  lemma TypeCodesSmall(t: MessageType)
    ensures TypeCode(t) < 16384
  {
  }

  lemma PowFourteen()
    ensures Pow2(14) == 16384 && Pow2(2) == 4
  {
    assert Pow2(4) == 16;
    assert Pow2(8) == 256;
    assert Pow2(12) == 4096;
  }

  /** Fourteen bits are a type exactly when they are worth its code. */
  lemma TypeByValue(s: string, t: MessageType)
    requires AllBits(s) && |s| == 14
    ensures TypeFromString(s) == Some(t) <==> BitsValue(s) == TypeCode(t)
  {
    hide BitsValue, TypeBits, TypeFromString, TypeCode;
    TypeBitsValue(t);
    TypeRoundTrip(t);
    if TypeFromString(s) == Some(t) {
      TypeOfString(s);
    }
    if BitsValue(s) == TypeCode(t) {
      ValueDetermines(s, TypeBits(t));
    }
  }

  /** The number in the first two bytes without their two leading bits. */
  function CodeOf(b: bytes): nat
    requires |b| >= 2
  {
    (b[0] as int) % 64 * 256 + b[1] as int
  }

  lemma FirstBits(b: bytes)
    requires |b| >= 2
    ensures var first := BitsOf([b[0], b[1]]);
            |first| == 16 && AllBits(first) && Slice(HeaderOf(b), 2, 16) == first[2..]
  {
    hide BitsOf, BitsOfByte;
    var header := b[..Min(20, |b|)];
    BitsOfShape(header);
    BitsOfShape([b[0], b[1]]);
    assert header == [b[0], b[1]] + header[2..];
    BitsOfConcat([b[0], b[1]], header[2..]);
  }

  lemma LeadingBitsDropped(x: nat, y: nat, top: nat, rest: nat)
    requires x < 256 && y < 256 && top < 4 && rest < 16384 && x * 256 + y == top * 16384 + rest
    ensures rest == x % 64 * 256 + y
  {
    assert x == top * 64 + rest / 256;
  }

  lemma FourteenOfSixteen(first: string)
    requires AllBits(first) && |first| == 16
    ensures AllBits(first[..2]) && AllBits(first[2..])
    ensures BitsValue(first) == BitsValue(first[..2]) * 16384 + BitsValue(first[2..])
    ensures BitsValue(first[..2]) < 4 && BitsValue(first[2..]) < 16384
  {
    hide BitsValue, Pow2;
    assert first == first[..2] + first[2..];
    ValueOfConcat(first[..2], first[2..]);
    ValueBelow(first[..2]);
    ValueBelow(first[2..]);
    PowFourteen();
  }

  lemma TypeField(b: bytes)
    requires |b| >= 2
    ensures |Slice(HeaderOf(b), 2, 16)| == 14 && AllBits(Slice(HeaderOf(b), 2, 16))
    ensures BitsValue(Slice(HeaderOf(b), 2, 16)) == CodeOf(b)
  {
    hide BitsValue, BitsOf, BitsOfByte, HeaderOf, Slice, AllBits;
    FirstBits(b);
    BitsOfTwo(b[0], b[1]);
    var first := BitsOf([b[0], b[1]]);
    FourteenOfSixteen(first);
    LeadingBitsDropped(b[0], b[1], BitsValue(first[..2]), BitsValue(first[2..]));
  }

  lemma IdField(b: bytes)
    ensures var n := Min(20, |b|);
            var id := IdOf(SliceFrom(HeaderOf(b), 64));
            if n <= 8 then id == None
            else id.Some? && id.value < Pow2(8 * (n - 8)) && BigEndian(id.value, n - 8) == b[8..n]
  {
    hide BitsValue, BitsOf, Pow2, Octets, BigEndian;
    var n := Min(20, |b|);
    BitsOfShape(b[..n]);
    if n > 8 {
      assert b[..n] == b[..8] + b[8..n];
      BitsOfConcat(b[..8], b[8..n]);
      BitsOfShape(b[..8]);
      OctetsOfBits(b[8..n]);
      var bits := BitsOf(b[8..n]);
      assert SliceFrom(HeaderOf(b), 64) == bits;
      OctetsAreBigEndian(bits);
      ValueBelow(bits);
    }
  }

  lemma NoTypeField(b: bytes)
    requires |b| < 2
    ensures TypeFromString(Slice(HeaderOf(b), 2, 16)) == None
  {
    hide BitsOf, TypeBits;
    BitsOfShape(b[..Min(20, |b|)]);
  }

  /** What `decode` makes of any bytes: it needs two bytes with the code of a type, whatever their two
      leading bits, and text from byte 20 on; the id is the big-endian number of as many of the
      bytes 8 to 19 as there are, and missing when there are none. Length and cookie play no part. */
  lemma DecodeMeaning(b: bytes)
    ensures DecodeMessage(b).Some?
            <==> |b| >= 2 && (exists t :: TypeCode(t) == CodeOf(b)) && Decode(b[Min(20, |b|)..]).Some?
    ensures DecodeMessage(b).Some? ==>
              var m, n := DecodeMessage(b).value, Min(20, |b|);
              && m.messageType.Some? && TypeCode(m.messageType.value) == CodeOf(b)
              && Decode(b[n..]) == Some(m.payload)
              && (n <= 8 ==> m.transactionId == None)
              && (n > 8 ==> m.transactionId.Some? && m.transactionId.value < Pow2(8 * (n - 8))
                            && BigEndian(m.transactionId.value, n - 8) == b[8..n])
  {
    hide Decode, TypeFromString, HeaderOf, Slice, SliceFrom, IdOf, Pow2, BigEndian, BitsValue, TypeCode, CodeOf;
    IdField(b);
    if |b| < 2 {
      NoTypeField(b);
    } else {
      TypeField(b);
      forall t: MessageType
        ensures TypeFromString(Slice(HeaderOf(b), 2, 16)) == Some(t) <==> TypeCode(t) == CodeOf(b)
      {
        TypeByValue(Slice(HeaderOf(b), 2, 16), t);
      }
    }
  }

  class StunMessage {
    var transactionId: Option<nat>
    var messageType: Option<MessageType>
    var messageLen: nat
    const magicCookie: nat := MAGIC_COOKIE
    var payload: string

    /** The length field follows the payload. */
    predicate Valid()
      reads this
    {
      messageLen == |payload|
    }

    function View(): Message
      reads this
    {
      Message(messageType, transactionId, payload)
    }

    constructor ()
      ensures Valid() && View() == Message(None, None, "")
    {
      transactionId, messageType, messageLen, payload := None, None, 0, "";
    }

    method SetTransactionId(id: Option<nat>)
      modifies this`transactionId
      ensures View() == old(View()).(transactionId := id)
    {
      transactionId := id;
    }

    method SetMessageType(t: MessageType)
      modifies this`messageType
      ensures View() == old(View()).(messageType := Some(t))
    {
      messageType := Some(t);
    }

    method SetPayload(text: string)
      modifies this`payload, this`messageLen
      ensures Valid() && View() == old(View()).(payload := text)
    {
      payload := text;
      messageLen := |text|;
    }

    method EncodeBytes() returns (r: Option<bytes>)
      requires Valid()
      ensures r == EncodeMessage(View())
    {
      hide Octets, ChunkBytes, Encode, Pow2, IntToByteStr, TypeBits, BinaryStringToInt, IdOf;
      HeaderShape(View());
      if messageType == None || transactionId == None {
        return None;
      }
      var text := "00";
      text := text + TypeBits(messageType.value);
      var length := IntToByteStr(messageLen, 16);
      if length == None {
        return None;
      }
      text := text + length.value;
      var cookie := IntToByteStr(magicCookie, 32);
      if cookie == None {
        return None;
      }
      text := text + cookie.value;
      var id := IntToByteStr(transactionId.value, 96);
      if id == None {
        return None;
      }
      text := text + id.value;
      var header := StringToByteArray(text);
      ChunkBytesOfBits(text);
      return Some(header.value + Encode(payload));
    }

    /** `StunMessage.decode`: a fresh message, or null where decoding raises. */
    static method DecodeBytes(b: bytes) returns (m: StunMessage?)
      ensures m == null <==> DecodeMessage(b) == None
      ensures m != null ==> fresh(m) && m.Valid() && Some(m.View()) == DecodeMessage(b)
    {
      var header := HeaderOf(b);
      var kind := TypeFromString(Slice(header, 2, 16));
      if kind == None {
        return null;
      }
      var id := IdOf(SliceFrom(header, 64));
      var text := Decode(b[Min(20, |b|)..]);
      if text == None {
        return null;
      }
      m := new StunMessage();
      m.SetMessageType(kind.value);
      m.SetTransactionId(id);
      m.SetPayload(text.value);
    }
  }
}
