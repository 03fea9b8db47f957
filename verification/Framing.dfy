/**
  The datagrams of the stop-and-wait transfer: the counter in decimal, an underscore and
  the payload text, all encoded as UTF-8.
 */
module Framing {
  import opened Wrappers
  import opened Utf8
  import PyText

  /** `__add_seq`; `None` when the payload bytes are not text and `data.decode()` raises. */
  function AddSeq(counter: nat, data: bytes): Option<bytes> {
    match Decode(data)
    case None => None
    case Some(text) => Some(Encode(PyText.Print(counter) + "_" + text))
  }

  /** The number and payload the receiver reads; `None` when `decode()` or `int(seq)` raises. */
  function ReadSeq(data: bytes): Option<(int, bytes)> {
    match Decode(data)
    case None => None
    case Some(text) =>
      var i := PyText.IndexOf(text, '_');
      var payload := if i < |text| then text[i + 1..] else "";
      match PyText.ParseInt(text[..i])
      case None => None
      case Some(seq_) => Some((seq_, Encode(payload)))
  }

  /** The size of the receive buffer. */
  const BUFFER_SIZE: nat := 4096

  /** What `recvfrom(4096)` hands over: the end of a longer datagram is discarded. */
  function Received(datagram: bytes): bytes {
    if |datagram| <= BUFFER_SIZE then datagram else datagram[..BUFFER_SIZE]
  }

  /** The number leaves room for the underscore: it is below 10 to the 4095. */
  predicate Short(number: nat) {
    |PyText.Print(number)| < BUFFER_SIZE
  }

  /** The whole frame fits the receive buffer. */
  predicate Fits(number: nat, data: bytes) {
    |PyText.Print(number)| + 1 + |data| <= BUFFER_SIZE
  }

  /** The part of the payload that fits the receive buffer. */
  function Fitting(number: nat, data: bytes): (part: bytes)
    requires Short(number)
    ensures part <= data
    ensures part == data <==> Fits(number, data)
  {
    if Fits(number, data) then data else data[..BUFFER_SIZE - |PyText.Print(number)| - 1]
  }

  /** Whatever the payload holds, the receiver recovers the counter and payload that were framed. */
  lemma FramingRoundTrip(counter: nat, data: bytes)
    requires AddSeq(counter, data).Some?
    ensures ReadSeq(AddSeq(counter, data).value) == Some((counter, data))
  {
    var text := Decode(data).value;
    var printed := PyText.Print(counter);
    DecodeOfEncode(printed + "_" + text);
    PyText.IndexOfSeam(printed, '_', text);
    PyText.ParseOfPrint(counter);
    EncodeOfDecode(data);
    var framed := printed + "_" + text;
    assert framed[..|printed|] == printed && framed[|printed| + 1..] == text;
  }

  /** A payload is framed exactly when its bytes are text. */
  lemma FramedIffDecodes(counter: nat, data: bytes)
    ensures AddSeq(counter, data).Some? <==> Decode(data).Some?
  {
  }

  lemma PrintedIsAscii(number: nat)
    ensures IsAscii(PyText.Print(number))
    ensures forall i :: 0 <= i < |PyText.Print(number)| ==> PyText.Print(number)[i] != '_'
  {
  }

  /** A frame is the digits of the number, an underscore and the payload as it came. */
  lemma FrameBytes(number: nat, data: bytes)
    requires AddSeq(number, data).Some?
    ensures var digits := Encode(PyText.Print(number));
            && |digits| == |PyText.Print(number)|
            && AddSeq(number, data).value == digits + Encode("_") + data
            && |AddSeq(number, data).value| == |digits| + 1 + |data|
  {
    var printed := PyText.Print(number);
    PrintedIsAscii(number);
    AsciiLength(printed);
    AsciiLength("_");
    EncodeOfDecode(data);
    EncodeOfConcat(printed + "_", Decode(data).value);
    EncodeOfConcat(printed, "_");
  }

  /** Text after digits and an underscore is read as number and payload. */
  lemma ReadOfDigits(number: nat, rest: bytes)
    ensures ReadSeq(Encode(PyText.Print(number)) + Encode("_") + rest)
            == if Decode(rest).Some? then Some((number as int, rest)) else None
  {
    var start := PyText.Print(number) + "_";
    EncodeOfConcat(PyText.Print(number), "_");
    DecodeOfPrefixed(start, rest);
    if Decode(rest).Some? {
      var data := Encode(start) + rest;
      EncodeOfDecode(rest);
      EncodeOfConcat(start, Decode(rest).value);
      assert AddSeq(number, rest) == Some(data);
      FramingRoundTrip(number, rest);
    }
  }

  /** Of a frame with a short number the receiver reads that number and the part of the
      payload that fits, unless that part ends inside a character. */
  lemma ReadOfReceived(number: nat, data: bytes)
    requires AddSeq(number, data).Some? && Short(number)
    ensures ReadSeq(Received(AddSeq(number, data).value))
            == if Decode(Fitting(number, data)).Some? then Some((number as int, Fitting(number, data))) else None
    ensures Fits(number, data) ==> Received(AddSeq(number, data).value) == AddSeq(number, data).value
                                   && Decode(Fitting(number, data)).Some?
  {
    hide Encode, Decode, ReadSeq;
    var frame := AddSeq(number, data).value;
    var start := Encode(PyText.Print(number)) + Encode("_");
    FramedIffDecodes(number, data);
    FrameBytes(number, data);
    assert Received(frame) == start + Fitting(number, data);
    ReadOfDigits(number, Fitting(number, data));
  }

  /** A number too long for the buffer is read as another one that is too long. */
  lemma ReadOfLong(number: nat, data: bytes)
    requires AddSeq(number, data).Some? && !Short(number)
    ensures var r := ReadSeq(Received(AddSeq(number, data).value));
            r.Some? ==> r.value.0 >= 0 && !Short(r.value.0)
  {
    hide Decode;
    var frame := AddSeq(number, data).value;
    var printed := PyText.Print(number);
    FrameBytes(number, data);
    var m := PyText.PrefixOfPrinted(number, BUFFER_SIZE);
    EncodeOfConcat(printed[..BUFFER_SIZE], printed[BUFFER_SIZE..]);
    assert printed == printed[..BUFFER_SIZE] + printed[BUFFER_SIZE..];
    PrintedIsAscii(m);
    AsciiLength(PyText.Print(m));
    assert Received(frame) == Encode(PyText.Print(m));
    DecodeOfEncode(PyText.Print(m));
    var i := PyText.IndexOf(PyText.Print(m), '_');
    assert PyText.Print(m)[..i] == PyText.Print(m);
    PyText.ParseOfPrint(m);
  }

  /** What the receiver reads of any bytes: the text up to the first underscore as the number,
      the text behind it as the payload; without an underscore all is the number. */
  lemma ReadSeqMeaning(data: bytes, left: string, right: string)
    requires '_' !in left
    ensures Decode(data) == None ==> ReadSeq(data) == None
    ensures Decode(data) == Some(left + "_" + right) ==>
              ReadSeq(data) == match PyText.ParseInt(left)
                               case None => None
                               case Some(n) => Some((n, Encode(right)))
    ensures Decode(data) == Some(left) ==>
              ReadSeq(data) == match PyText.ParseInt(left)
                               case None => None
                               case Some(n) => Some((n, []))
  {
    hide Decode;
    if Decode(data) == Some(left + "_" + right) {
      PyText.IndexOfSeam(left, '_', right);
      var text := left + "_" + right;
      assert text[..|left|] == left && text[|left| + 1..] == right;
    } else if Decode(data) == Some(left) {
      var i := PyText.IndexOf(left, '_');
      assert i == |left| && left[..i] == left;
    }
  }
}
