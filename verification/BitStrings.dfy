/**
  Numbers as strings of '0' and '1', and the packing of such strings into bytes eight
  characters at a time, as `shared/utils.py` does it.
 */
module BitStrings {
  import opened Wrappers
  import opened Utf8
  import PyText

  predicate AllBits(s: string) {
    forall i :: 0 <= i < |s| ==> s[i] == '0' || s[i] == '1'
  }

  function Bit(n: nat): (c: char)
    ensures c == '0' || c == '1'
  {
    if n % 2 == 0 then '0' else '1'
  }

  /** `format(n, 'b')`, which is also `bin(n)[2:]`. */
  function Binary(n: nat): (s: string)
    ensures s != [] && AllBits(s)
  {
    if n < 2 then [Bit(n)] else Binary(n / 2) + [Bit(n)]
  }

  function Zeros(n: nat): (s: string)
    ensures |s| == n && AllBits(s)
  {
    if n == 0 then "" else "0" + Zeros(n - 1)
  }

  /** `s.zfill(width)` of an unsigned numeral. */
  function ZFill(s: string, width: nat): string {
    if |s| < width then Zeros(width - |s|) + s else s
  }

  /** `int_to_byte_str`; `None` is the ValueError of a number that does not fit. */
  function IntToByteStr(number: nat, length: nat): Option<string> {
    var binary := Binary(number);
    if |binary| > length then None else Some(ZFill(binary, length))
  }

  function BitsValue(s: string): nat
    requires AllBits(s)
  {
    if s == [] then 0
    else BitsValue(s[..|s| - 1]) * 2 + (if s[|s| - 1] == '1' then 1 else 0)
  }

  predicate IsBit(c: char) {
    c == '0' || c == '1'
  }

  /** The digits `int(s, 2)` takes: bits, with single underscores between them. */
  predicate IsNumeral(s: string) {
    && s != [] && IsBit(s[0]) && IsBit(s[|s| - 1])
    && (forall i :: 0 <= i < |s| ==> IsBit(s[i]) || s[i] == '_')
    && (forall i :: 0 <= i < |s| - 1 ==> s[i] == '_' ==> s[i + 1] != '_')
  }

  function NumeralValue(s: string): nat {
    if s == [] then 0
    else
      var front, last := NumeralValue(s[..|s| - 1]), s[|s| - 1];
      if last == '_' then front else front * 2 + (if last == '1' then 1 else 0)
  }

  /** A numeral without its prefix "0b", which one underscore may follow. */
  function WithoutPrefix(s: string): string {
    if |s| < 2 || s[0] != '0' || (s[1] != 'b' && s[1] != 'B') then s
    else if |s| > 2 && s[2] == '_' then s[3..]
    else s[2..]
  }

  /** What stands between the blanks: a sign, a prefix, a numeral. */
  function ParseCore(t: string): Option<int> {
    var signed := t != [] && (t[0] == '-' || t[0] == '+');
    var digits := WithoutPrefix(if signed then t[1..] else t);
    if !IsNumeral(digits) then None
    else
      var magnitude: int := NumeralValue(digits);
      Some(if t[0] == '-' then -magnitude else magnitude)
  }

  /** `int(s, 2)`: blanks around a sign, a prefix and a numeral; `None` is the ValueError. */
  function ParseBinary(s: string): Option<int> {
    ParseCore(PyText.StripRight(PyText.StripLeft(s)))
  }

  lemma {:induction false} NumeralOfBits(s: string)
    requires AllBits(s)
    ensures NumeralValue(s) == BitsValue(s)
  {
    if s != [] {
      NumeralOfBits(s[..|s| - 1]);
    }
  }

  /** A string of bits is read as the number it prints; the empty string is refused. */
  lemma ParseOfBits(s: string)
    requires AllBits(s)
    ensures ParseBinary(s) == if s == [] then None else Some(BitsValue(s))
  {
    NumeralOfBits(s);
    assert PyText.StripRight(PyText.StripLeft(s)) == s;
  }

  /** The bits of a numeral, without its underscores. */
  function OnlyBits(s: string): string {
    if s == [] then []
    else if s[|s| - 1] == '_' then OnlyBits(s[..|s| - 1])
    else OnlyBits(s[..|s| - 1]) + [s[|s| - 1]]
  }

  lemma {:induction false} NumeralIsItsBits(s: string)
    requires forall i :: 0 <= i < |s| ==> IsBit(s[i]) || s[i] == '_'
    ensures AllBits(OnlyBits(s)) && NumeralValue(s) == BitsValue(OnlyBits(s))
  {
    if s != [] {
      var front, last := s[..|s| - 1], s[|s| - 1];
      NumeralIsItsBits(front);
      if last != '_' {
        assert OnlyBits(s)[..|OnlyBits(s)| - 1] == OnlyBits(front);
      }
    }
  }

  /** Groups of bits with one underscore between any two. */
  function Joined(groups: seq<string>): string {
    if groups == [] then "" else if |groups| == 1 then groups[0] else groups[0] + "_" + Joined(groups[1..])
  }

  function Concatenated(groups: seq<string>): string {
    if groups == [] then "" else groups[0] + Concatenated(groups[1..])
  }

  predicate GroupsOk(groups: seq<string>) {
    groups != [] && forall i :: 0 <= i < |groups| ==> groups[i] != "" && AllBits(groups[i])
  }

  lemma {:induction false} OnlyBitsOfConcat(s: string, t: string)
    ensures OnlyBits(s + t) == OnlyBits(s) + OnlyBits(t)
    decreases |t|
  {
    if t == [] {
      assert s + t == s;
    } else {
      assert (s + t)[..|s + t| - 1] == s + t[..|t| - 1];
      OnlyBitsOfConcat(s, t[..|t| - 1]);
    }
  }

  lemma {:induction false} OnlyBitsOfBits(s: string)
    requires AllBits(s)
    ensures OnlyBits(s) == s
  {
    if s != [] {
      OnlyBitsOfBits(s[..|s| - 1]);
    }
  }

  lemma {:induction false} JoinedIsNumeral(groups: seq<string>)
    requires GroupsOk(groups)
    ensures IsNumeral(Joined(groups)) && OnlyBits(Joined(groups)) == Concatenated(groups)
    decreases |groups|
  {
    hide OnlyBits, IsNumeral;
    var g, tail := groups[0], groups[1..];
    if |groups| == 1 {
      OneGroup(g);
      assert Concatenated(tail) == "";
    } else {
      JoinedIsNumeral(tail);
      SeamIsNumeral(g, Joined(tail));
    }
  }

  lemma OneGroup(g: string)
    requires g != "" && AllBits(g)
    ensures IsNumeral(g) && OnlyBits(g) == g
  {
    OnlyBitsOfBits(g);
  }

  lemma NoBitsInUnderscore()
    ensures OnlyBits("_") == ""
  {
    assert "_"[..0] == "";
    assert OnlyBits("") == "";
  }

  lemma SeamIsNumeral(g: string, rest: string)
    requires g != "" && AllBits(g) && IsNumeral(rest)
    ensures IsNumeral(g + "_" + rest) && OnlyBits(g + "_" + rest) == g + OnlyBits(rest)
  {
    hide OnlyBits;
    OnlyBitsOfBits(g);
    OnlyBitsOfConcat(g + "_", rest);
    OnlyBitsOfConcat(g, "_");
    NoBitsInUnderscore();
    var s := g + "_" + rest;
    assert forall i :: |g| < i < |s| ==> s[i] == rest[i - |g| - 1];
  }

  lemma {:induction false} NumeralIsJoined(s: string) returns (groups: seq<string>)
    requires IsNumeral(s)
    ensures GroupsOk(groups) && Joined(groups) == s
    decreases |s|
  {
    var i := PyText.IndexOf(s, '_');
    if i == |s| {
      groups := [s];
    } else {
      var rest := s[i + 1..];
      assert IsBit(s[|s| - 1]) && i < |s| - 1 && s[i + 1] != '_';
      var tail := NumeralIsJoined(rest);
      groups := [s[..i]] + tail;
      assert groups[1..] == tail && s == s[..i] + "_" + rest;
    }
  }

  /** A numeral is any number of groups of bits, at least one, with one underscore between any two;
      its value is that of the bits alone. */
  lemma NumeralIff(s: string)
    ensures IsNumeral(s) <==> exists groups :: GroupsOk(groups) && Joined(groups) == s
    ensures forall groups :: GroupsOk(groups) && Joined(groups) == s ==>
              AllBits(Concatenated(groups)) && NumeralValue(s) == BitsValue(Concatenated(groups))
  {
    hide Joined, Concatenated, GroupsOk, OnlyBits, NumeralValue, BitsValue;
    if IsNumeral(s) {
      var groups := NumeralIsJoined(s);
    }
    forall groups | GroupsOk(groups) && Joined(groups) == s
      ensures IsNumeral(s) && AllBits(Concatenated(groups)) && NumeralValue(s) == BitsValue(Concatenated(groups))
    {
      JoinedIsNumeral(groups);
      NumeralIsItsBits(s);
    }
  }

  /** A text of base 2 as Python takes it: blanks, a sign or none, "0b" or "0B" or "0b_" or "0B_" or
      none, bits with single underscores between them, and blanks; `n` is its value. */
  predicate SpellsBits(s: string, before: string, sign: string, prefix: string, bits: string, after: string, n: int) {
    && s == before + (sign + (prefix + bits)) + after && PyText.Blank(before) && PyText.Blank(after)
    && (sign == "" || sign == "+" || sign == "-")
    && (prefix == "" || prefix == "0b" || prefix == "0B" || prefix == "0b_" || prefix == "0B_")
    && IsNumeral(bits)
    && n == PyText.Signed(sign == "-", NumeralValue(bits))
  }

  lemma PrefixDropped(prefix: string, bits: string)
    requires prefix == "" || prefix == "0b" || prefix == "0B" || prefix == "0b_" || prefix == "0B_"
    requires IsNumeral(bits)
    ensures WithoutPrefix(prefix + bits) == bits
  {
    assert |prefix| == 2 ==> (prefix + bits)[2] == bits[0];
  }

  lemma PrefixFound(u: string) returns (prefix: string)
    ensures prefix == "" || prefix == "0b" || prefix == "0B" || prefix == "0b_" || prefix == "0B_"
    ensures u == prefix + WithoutPrefix(u)
  {
    var rest := WithoutPrefix(u);
    prefix := u[..|u| - |rest|];
  }

  lemma BitsCore(sign: string, prefix: string, bits: string)
    requires sign == "" || sign == "+" || sign == "-"
    requires prefix == "" || prefix == "0b" || prefix == "0B" || prefix == "0b_" || prefix == "0B_"
    requires IsNumeral(bits)
    ensures var core := sign + (prefix + bits);
            && core != [] && !PyText.IsSpace(core[0]) && !PyText.IsSpace(core[|core| - 1])
            && (core[0] == '-' <==> sign == "-") && (core[0] == '+' <==> sign == "+")
            && (if sign == "" then core else core[1..]) == prefix + bits
  {
    assert prefix != "" ==> (prefix + bits)[0] == '0';
    assert (prefix + bits)[|prefix + bits| - 1] == bits[|bits| - 1];
  }

  lemma CoreParsed(sign: string, prefix: string, bits: string)
    requires sign == "" || sign == "+" || sign == "-"
    requires prefix == "" || prefix == "0b" || prefix == "0B" || prefix == "0b_" || prefix == "0B_"
    requires IsNumeral(bits)
    ensures ParseCore(sign + (prefix + bits)) == Some(PyText.Signed(sign == "-", NumeralValue(bits)))
  {
    hide IsNumeral, NumeralValue, WithoutPrefix, PyText.IsSpace;
    BitsCore(sign, prefix, bits);
    PrefixDropped(prefix, bits);
  }

  lemma SpelledBitsAreRead(s: string, before: string, sign: string, prefix: string, bits: string, after: string, n: int)
    requires SpellsBits(s, before, sign, prefix, bits, after, n)
    ensures ParseBinary(s) == Some(n)
  {
    hide IsNumeral, NumeralValue, PyText.StripLeft, PyText.StripRight, PyText.IsSpace, PyText.Blank, ParseCore;
    BitsCore(sign, prefix, bits);
    CoreParsed(sign, prefix, bits);
    PyText.StripOf(before, sign + (prefix + bits), after);
  }

  lemma ReadBitsAreSpelled(s: string, n: int)
    returns (before: string, sign: string, prefix: string, bits: string, after: string)
    requires ParseBinary(s) == Some(n)
    ensures SpellsBits(s, before, sign, prefix, bits, after, n)
  {
    hide IsNumeral, NumeralValue, WithoutPrefix, PyText.StripLeft, PyText.StripRight, PyText.IsSpace, PyText.Blank;
    before := PyText.StripLeftSplits(s);
    after := PyText.StripRightSplits(PyText.StripLeft(s));
    var t := PyText.StripRight(PyText.StripLeft(s));
    var u;
    sign, u := PyText.SignSplits(t);
    assert u == if sign == "" then t else t[1..];
    prefix := PrefixFound(u);
    bits := WithoutPrefix(u);
    assert t == sign + (prefix + bits) && s == before + t + after;
    assert sign == "-" <==> t != [] && t[0] == '-';
    NumeralNotEmpty(bits);
  }

  lemma NumeralNotEmpty(bits: string)
    requires IsNumeral(bits)
    ensures bits != []
  {
  }

  /** `int(s, 2)` reads exactly these texts. */
  lemma ParseBinaryIff(s: string, n: int)
    ensures ParseBinary(s) == Some(n)
            <==> exists before, sign, prefix, bits, after :: SpellsBits(s, before, sign, prefix, bits, after, n)
  {
    hide ParseBinary, SpellsBits;
    if before, sign, prefix, bits, after :| SpellsBits(s, before, sign, prefix, bits, after, n) {
      SpelledBitsAreRead(s, before, sign, prefix, bits, after, n);
    }
    if ParseBinary(s) == Some(n) {
      var before, sign, prefix, bits, after := ReadBitsAreSpelled(s, n);
    }
  }

  /** `binary_string_to_int`: it reports the ValueError and returns nothing. */
  function BinaryStringToInt(s: string): (r: Option<int>)
    ensures AllBits(s) && s != [] ==> r == Some(BitsValue(s))
    ensures s == [] ==> r == None
  {
    if AllBits(s) then
      ParseOfBits(s);
      ParseBinary(s)
    else
      ParseBinary(s)
  }

  function Pow2(n: nat): (p: nat)
    ensures p >= 1
  {
    if n == 0 then 1 else 2 * Pow2(n - 1)
  }

  lemma ValueOfAppended(s: string, c: char)
    requires AllBits(s) && (c == '0' || c == '1')
    ensures AllBits(s + [c]) && BitsValue(s + [c]) == BitsValue(s) * 2 + (if c == '1' then 1 else 0)
  {
    assert (s + [c])[..|s|] == s;
  }

  lemma {:induction false} ValueOfBinary(n: nat)
    ensures BitsValue(Binary(n)) == n
  {
    if n < 2 {
      assert Binary(n)[..0] == [];
    } else {
      ValueOfBinary(n / 2);
      ValueOfAppended(Binary(n / 2), Bit(n));
      assert n == n / 2 * 2 + n % 2;
    }
  }

  lemma {:induction false} LeadingZero(s: string)
    requires AllBits(s)
    ensures BitsValue("0" + s) == BitsValue(s)
  {
    var t := "0" + s;
    if s == [] {
      assert t[..0] == [];
    } else {
      LeadingZero(s[..|s| - 1]);
      assert t[..|t| - 1] == "0" + s[..|s| - 1];
    }
  }

  lemma {:induction false} ValueOfPadded(s: string, n: nat)
    requires AllBits(s)
    ensures AllBits(Zeros(n) + s) && BitsValue(Zeros(n) + s) == BitsValue(s)
  {
    if n == 0 {
      assert Zeros(0) + s == s;
    } else {
      ValueOfPadded(s, n - 1);
      LeadingZero(Zeros(n - 1) + s);
      assert Zeros(n) + s == "0" + (Zeros(n - 1) + s);
    }
  }

  lemma {:induction false} BinaryFits(n: nat, width: nat)
    requires width >= 1
    ensures |Binary(n)| <= width <==> n < Pow2(width)
  {
    if n < 2 {
      assert Pow2(width) >= 2;
    } else if width == 1 {
      assert Pow2(1) == 2;
    } else {
      BinaryFits(n / 2, width - 1);
    }
  }

  lemma {:induction false} ValueBelow(s: string)
    requires AllBits(s)
    ensures BitsValue(s) < Pow2(|s|)
  {
    if s == [] {
    } else {
      ValueBelow(s[..|s| - 1]);
    }
  }

  /** Bit strings of one length differ in value. */
  lemma {:induction false} ValueDetermines(s: string, t: string)
    requires AllBits(s) && AllBits(t) && |s| == |t| && BitsValue(s) == BitsValue(t)
    ensures s == t
  {
    if s == [] {
    } else {
      ValueDetermines(s[..|s| - 1], t[..|t| - 1]);
      assert s == s[..|s| - 1] + [s[|s| - 1]];
      assert t == t[..|t| - 1] + [t[|t| - 1]];
    }
  }

  lemma FillFits(s: string, width: nat)
    requires AllBits(s) && |s| <= width
    ensures |ZFill(s, width)| == width && AllBits(ZFill(s, width)) && BitsValue(ZFill(s, width)) == BitsValue(s)
  {
    hide BitsValue;
    if |s| < width {
      ValueOfPadded(s, width - |s|);
    }
  }

  /** A number is printed at a width exactly when it fits, and then at that width, and
      reading the print gives the number back. */
  lemma PrintedAtWidth(number: nat, length: nat)
    requires length >= 1
    ensures IntToByteStr(number, length).Some? <==> number < Pow2(length)
    ensures number < Pow2(length) ==>
              var s := IntToByteStr(number, length).value;
              |s| == length && AllBits(s) && BinaryStringToInt(s) == Some(number)
  {
    hide Pow2, Binary, ZFill, BitsValue, ParseBinary, BinaryStringToInt;
    BinaryFits(number, length);
    ValueOfBinary(number);
    if number < Pow2(length) {
      FillFits(Binary(number), length);
    }
  }

  /** Reading a bit string and printing the number at its width gives the string back. */
  lemma ReadThenPrinted(s: string)
    requires AllBits(s) && s != []
    ensures IntToByteStr(BitsValue(s), |s|) == Some(s)
  {
    ValueBelow(s);
    PrintedAtWidth(BitsValue(s), |s|);
    ValueDetermines(IntToByteStr(BitsValue(s), |s|).value, s);
  }

  lemma PrintOfRead(s: string)
    requires AllBits(s) && s != []
    ensures BinaryStringToInt(s).Some? && BinaryStringToInt(s).value >= 0
    ensures IntToByteStr(BinaryStringToInt(s).value, |s|) == Some(s)
  {
    hide IntToByteStr, BitsValue, ParseBinary;
    ReadThenPrinted(s);
  }

  // Bytes.

  /** The byte of eight bits. */
  function ByteOf(s: string): byte
    requires AllBits(s) && |s| == 8
  {
    ValueBelow(s);
    assert Pow2(8) == 256 by {
      assert Pow2(4) == 16;
    }
    BitsValue(s)
  }

  /** Every eight bits as a byte. */
  function Octets(s: string): (b: bytes)
    requires AllBits(s) && |s| % 8 == 0
    ensures |b| == |s| / 8
  {
    if s == [] then [] else [ByteOf(s[..8])] + Octets(s[8..])
  }

  /** `bin(byte)[2:].zfill(8)`. */
  function BitsOfByte(b: byte): string {
    ZFill(Binary(b), 8)
  }

  /** `''.join(bin(byte)[2:].zfill(8) for byte in b)`. */
  function BitsOf(b: bytes): string {
    if b == [] then "" else BitsOfByte(b[0]) + BitsOf(b[1..])
  }

  lemma ByteRoundTrip(b: byte)
    ensures |BitsOfByte(b)| == 8 && AllBits(BitsOfByte(b)) && ByteOf(BitsOfByte(b)) == b
  {
    assert Pow2(8) == 256 by {
      assert Pow2(4) == 16;
    }
    PrintedAtWidth(b, 8);
  }

  lemma {:induction false} BitsOfShape(b: bytes)
    ensures AllBits(BitsOf(b)) && |BitsOf(b)| == 8 * |b|
  {
    if b == [] {
    } else {
      ByteRoundTrip(b[0]);
      BitsOfShape(b[1..]);
    }
  }

  /** Unpacking bytes to bits and packing them again gives the bytes back. */
  lemma {:induction false} OctetsOfBits(b: bytes)
    ensures AllBits(BitsOf(b)) && |BitsOf(b)| == 8 * |b|
    ensures Octets(BitsOf(b)) == b
  {
    BitsOfShape(b);
    if b == [] {
    } else {
      ByteRoundTrip(b[0]);
      OctetsOfBits(b[1..]);
      assert BitsOf(b)[..8] == BitsOfByte(b[0]);
      assert BitsOf(b)[8..] == BitsOf(b[1..]);
    }
  }

  /** Packing bits and unpacking the bytes again gives the bits back. */
  lemma {:induction false} BitsOfOctets(s: string)
    requires AllBits(s) && |s| % 8 == 0
    ensures BitsOf(Octets(s)) == s
  {
    if s == [] {
    } else {
      var first := s[..8];
      ReadThenPrinted(first);
      BitsOfOctets(s[8..]);
      assert BitsOfByte(ByteOf(first)) == first;
      assert Octets(s)[1..] == Octets(s[8..]);
      assert s == first + s[8..];
    }
  }

  lemma {:induction false} OctetsOfConcat(s: string, t: string)
    requires AllBits(s) && AllBits(t) && |s| % 8 == 0 && |t| % 8 == 0
    ensures AllBits(s + t) && Octets(s + t) == Octets(s) + Octets(t)
  {
    hide ByteOf, Octets;
    NoOctets();
    if s == [] {
      assert s + t == t;
    } else {
      OctetsOfConcat(s[8..], t);
      assert (s + t)[..8] == s[..8] && (s + t)[8..] == s[8..] + t;
      FirstOctet(s);
      FirstOctet(s + t);
    }
  }

  lemma FirstOctet(s: string)
    requires AllBits(s) && |s| % 8 == 0 && s != []
    ensures Octets(s) == [ByteOf(s[..8])] + Octets(s[8..])
  {
    hide ByteOf;
  }

  /** `int(chunk, 2)` appended to a byte array; `None` where either raises. */
  function ByteOfChunk(chunk: string): Option<byte> {
    match ParseBinary(chunk)
    case None => None
    case Some(n) => if 0 <= n < 256 then Some(n) else None
  }

  /** Every eight characters as a byte. */
  function ChunkBytes(s: string): Option<bytes>
    requires |s| % 8 == 0
  {
    if s == [] then Some([])
    else
      match ByteOfChunk(s[..8])
      case None => None
      case Some(b) => After([b], ChunkBytes(s[8..]))
  }

  function After(done: bytes, rest: Option<bytes>): Option<bytes> {
    match rest
    case None => None
    case Some(more) => Some(done + more)
  }

  lemma AfterTwo(first: bytes, second: bytes, rest: Option<bytes>)
    ensures After(first, After(second, rest)) == After(first + second, rest)
    ensures After([], rest) == rest
  {
    if rest.Some? {
      assert first + (second + rest.value) == first + second + rest.value;
      assert [] + rest.value == rest.value;
    }
  }

  /** `string_to_byte_array`; `None` is the ValueError of a ragged length or a chunk that is no byte. */
  method StringToByteArray(s: string) returns (r: Option<bytes>)
    ensures r == if |s| % 8 != 0 then None else ChunkBytes(s)
  {
    hide ByteOfChunk;
    if |s| % 8 != 0 {
      return None;
    }
    var byteArray: bytes := [];
    var i := 0;
    AfterTwo([], [], ChunkBytes(s));
    assert s[0..] == s;
    while i < |s|
      invariant 0 <= i <= |s| && i % 8 == 0
      invariant ChunkBytes(s) == After(byteArray, ChunkBytes(s[i..]))
    {
      var byteValue := ByteOfChunk(s[i..i + 8]);
      assert s[i..][..8] == s[i..i + 8] && s[i..][8..] == s[i + 8..];
      if byteValue == None {
        return None;
      }
      AfterTwo(byteArray, [byteValue.value], ChunkBytes(s[i + 8..]));
      byteArray := byteArray + [byteValue.value];
      i := i + 8;
    }
    assert s[i..] == [] && byteArray + [] == byteArray;
    return Some(byteArray);
  }

  /** Strings of bits are always packed, to the bytes of each eight. */
  lemma {:induction false} ChunkBytesOfBits(s: string)
    requires AllBits(s) && |s| % 8 == 0
    ensures ChunkBytes(s) == Some(Octets(s))
  {
    hide ParseBinary, BitsValue;
    if s != [] {
      ParseOfBits(s[..8]);
      ChunkBytesOfBits(s[8..]);
      assert ByteOfChunk(s[..8]) == Some(ByteOf(s[..8])) by {
        ByteValue(s[..8]);
      }
    }
  }

  lemma ByteValue(s: string)
    requires AllBits(s) && |s| == 8
    ensures ByteOf(s) == BitsValue(s)
  {
  }

  // The reference layout: big-endian numbers, with no bit strings in sight.

  function BigEndian(n: nat, width: nat): (b: bytes)
    ensures |b| == width
  {
    if width == 0 then [] else BigEndian(n / 256, width - 1) + [n % 256]
  }

  lemma {:induction false} ValueOfConcat(s: string, t: string)
    requires AllBits(s) && AllBits(t)
    ensures AllBits(s + t) && BitsValue(s + t) == BitsValue(s) * Pow2(|t|) + BitsValue(t)
  {
    if t == [] {
      assert s + t == s;
    } else {
      var front, c := t[..|t| - 1], t[|t| - 1];
      ValueOfConcat(s, front);
      ValueOfAppended(s + front, c);
      assert s + t == s + front + [c];
      assert BitsValue(s + t) == (BitsValue(s) * Pow2(|front|) + BitsValue(front)) * 2 + (if c == '1' then 1 else 0);
      DoubleSum(BitsValue(s), Pow2(|front|), BitsValue(front));
    }
  }

  lemma DoubleSum(a: nat, p: nat, b: nat)
    ensures (a * p + b) * 2 == a * (2 * p) + b * 2
  {
  }

  lemma NoOctets()
    ensures Octets("") == [] && BitsValue("") == 0
  {
  }

  lemma OneOctet(s: string)
    requires AllBits(s) && |s| == 8
    ensures Octets(s) == [ByteOf(s)] && Pow2(8) == 256
  {
    assert s[..8] == s && s[8..] == "";
    assert Pow2(4) == 16;
  }

  /** Packed bits are the big-endian bytes of their value. */
  lemma {:induction false} OctetsAreBigEndian(s: string)
    requires AllBits(s) && |s| % 8 == 0
    ensures Octets(s) == BigEndian(BitsValue(s), |s| / 8)
  {
    hide Pow2, BitsValue, Octets;
    NoOctets();
    if s == [] {
    } else {
      var front, last := s[..|s| - 8], s[|s| - 8..];
      assert s == front + last;
      OctetsAreBigEndian(front);
      OctetsOfConcat(front, last);
      ValueOfConcat(front, last);
      OneOctet(last);
      assert BitsValue(s) == BitsValue(front) * 256 + ByteOf(last);
    }
  }

  lemma {:induction false} BitsOfConcat(a: bytes, b: bytes)
    ensures BitsOf(a + b) == BitsOf(a) + BitsOf(b)
  {
    hide BitsOfByte;
    if a == [] {
      assert a + b == b;
    } else {
      assert (a + b)[1..] == a[1..] + b;
      BitsOfConcat(a[1..], b);
    }
  }

  /** The bits of two bytes are worth the big-endian number of the two. */
  lemma BitsOfTwo(x: byte, y: byte)
    ensures BitsOf([x, y]) == BitsOfByte(x) + BitsOfByte(y)
    ensures |BitsOf([x, y])| == 16 && AllBits(BitsOf([x, y])) && BitsValue(BitsOf([x, y])) == x * 256 + y
  {
    hide BitsOfByte, BitsValue, Pow2;
    BitsOfPair(x, y);
    ByteRoundTrip(x);
    ByteRoundTrip(y);
    ByteValue(BitsOfByte(x));
    ByteValue(BitsOfByte(y));
    ValueOfConcat(BitsOfByte(x), BitsOfByte(y));
    OneOctet(BitsOfByte(y));
  }

  lemma BitsOfPair(x: byte, y: byte)
    ensures BitsOf([x, y]) == BitsOfByte(x) + BitsOfByte(y)
  {
    hide BitsOfByte;
    assert [x, y][1..] == [y] && [y][1..] == [];
    assert BitsOf([y]) == BitsOfByte(y) + [];
  }

  /** Packing succeeds exactly when every eight characters read as a number that is a byte, and these
      are the bytes. */
  lemma {:induction false} ChunkBytesIff(s: string, b: bytes)
    requires |s| % 8 == 0
    ensures ChunkBytes(s) == Some(b)
            <==> |s| == 8 * |b| && forall i :: 0 <= i < |b| ==> ParseBinary(s[8 * i..8 * i + 8]) == Some(b[i])
    decreases |s|
  {
    hide ParseBinary;
    if s != [] {
      var rest := s[8..];
      if |b| > 0 {
        ChunkBytesIff(rest, b[1..]);
        assert forall i :: 0 <= i < |b| - 1 && 8 * i + 8 <= |rest| ==>
                 rest[8 * i..8 * i + 8] == s[8 * (i + 1)..8 * (i + 1) + 8];
        FirstChunk(s, b);
        assert forall i :: 0 < i < |b| ==> b[i] == b[1..][i - 1];
      }
    }
  }

  lemma FirstChunk(s: string, b: bytes)
    requires |s| % 8 == 0 && s != [] && b != []
    ensures ChunkBytes(s) == Some(b) <==> ParseBinary(s[..8]) == Some(b[0]) && ChunkBytes(s[8..]) == Some(b[1..])
  {
    hide ParseBinary;
    assert b == [b[0]] + b[1..];
  }
}
