/**
  Socket addresses, the "ip:port" text both programs use for them, and the check the
  server makes on the address a datagram came from.
 */
module Addresses {
  import opened Wrappers
  import PyText

  datatype Address = Address(ip: string, port: nat)

  /** `str(ip) + ":" + str(port)`. */
  function AddressText(a: Address): string {
    a.ip + ":" + PyText.Print(a.port)
  }

  /** `ip, port = text.split(":")` and `int(port)`; `None` where either raises. */
  function ParseAddress(text: string): Option<(string, int)> {
    match PyText.SplitPair(text, ':')
    case None => None
    case Some((ip, port)) =>
      match PyText.ParseInt(port)
      case None => None
      case Some(n) => Some((ip, n))
  }

  predicate IsOctet(s: string) {
    && 1 <= |s| <= 3
    && PyText.AllDigits(s)
    && (|s| > 1 ==> s[0] != '0')
    && PyText.DigitsValue(s) <= 255
  }

  /** `n` octets separated by dots. */
  predicate IsDotted(s: string, n: nat) {
    var i := PyText.IndexOf(s, '.');
    n >= 1 && IsOctet(s[..i]) && (if n == 1 then i == |s| else i < |s| && IsDotted(s[i + 1..], n - 1))
  }

  /** `is_address_valid` for the IPv4 literals an AF_INET socket reports. */
  predicate IsAddressValid(a: Address) {
    IsDotted(a.ip, 4) && a.port < 65536
  }

  predicate NoColon(s: string) {
    forall k :: 0 <= k < |s| ==> s[k] != ':'
  }

  lemma {:induction false} DottedHasNoColon(s: string, n: nat)
    requires IsDotted(s, n)
    ensures NoColon(s)
    decreases n
  {
    hide PyText.IndexOf, IsOctet, NoColon;
    var i := PyText.IndexOf(s, '.');
    var first := s[..i];
    OctetHasNoColon(first);
    if n == 1 {
      assert first == s;
    } else {
      var rest := s[i + 1..];
      DottedHasNoColon(rest, n - 1);
      NoColonJoined(first, rest);
      assert s == first + "." + rest;
    }
  }

  lemma NoColonJoined(left: string, right: string)
    requires NoColon(left) && NoColon(right)
    ensures NoColon(left + "." + right)
  {
  }

  lemma OctetHasNoColon(s: string)
    requires IsOctet(s)
    ensures NoColon(s)
  {
    assert forall k :: 0 <= k < |s| ==> PyText.IsDigit(s[k]);
  }

  predicate Plain(s: string) {
    forall k :: 0 <= k < |s| ==> PyText.IsDigit(s[k]) || s[k] == '.'
  }

  /** A dotted address is made of digits and dots. */
  lemma {:induction false} DottedIsPlain(s: string, n: nat)
    requires IsDotted(s, n)
    ensures Plain(s)
    decreases n
  {
    hide PyText.IndexOf, PyText.DigitsValue;
    var i := PyText.IndexOf(s, '.');
    if n == 1 {
      assert s[..i] == s;
    } else {
      DottedIsPlain(s[i + 1..], n - 1);
      assert s == s[..i] + [s[i]] + s[i + 1..];
      assert s[i] == '.' && Plain(s[..i]);
    }
  }

  lemma {:induction false} DottedLength(s: string, n: nat)
    requires IsDotted(s, n)
    ensures |s| <= 4 * n - 1
    decreases n
  {
    hide PyText.IndexOf, PyText.DigitsValue, PyText.AllDigits;
    var i := PyText.IndexOf(s, '.');
    if n > 1 {
      DottedLength(s[i + 1..], n - 1);
    }
  }

  /** The text of a valid address is read back to that address. */
  lemma AddressRoundTrip(a: Address)
    requires IsAddressValid(a)
    ensures ParseAddress(AddressText(a)) == Some((a.ip, a.port as int))
  {
    DottedHasNoColon(a.ip, 4);
    hide IsDotted, PyText.ParseInt, PyText.Print, PyText.SplitPair;
    PyText.SplitPairOfJoined(a.ip, ':', PyText.Print(a.port));
    PyText.ParseOfPrint(a.port);
  }

  /** Distinct valid addresses have distinct texts. */
  lemma AddressTextDetermines(a: Address, b: Address)
    requires IsAddressValid(a) && IsAddressValid(b) && AddressText(a) == AddressText(b)
    ensures a == b
  {
    hide IsAddressValid, AddressText, ParseAddress;
    AddressRoundTrip(a);
    AddressRoundTrip(b);
  }

  /** A text is read as an address exactly when it is two texts without a colon joined by one, the
      second a number. */
  lemma ParseAddressIff(text: string, ip: string, n: int)
    ensures ParseAddress(text) == Some((ip, n))
            <==> exists port: string :: text == ip + ":" + port && ':' !in ip && ':' !in port
                                        && PyText.ParseInt(port) == Some(n)
  {
    hide PyText.ParseInt, PyText.SplitPair;
    if ParseAddress(text) == Some((ip, n)) {
      var port := PyText.SplitPair(text, ':').value.1;
      PyText.SplitPairIff(text, ':', ip, port);
    }
    if port: string :| text == ip + ":" + port && ':' !in ip && ':' !in port && PyText.ParseInt(port) == Some(n) {
      PyText.SplitPairIff(text, ':', ip, port);
    }
  }

  /** Four numbers below 256, dotted. */
  function Dotted(w: nat, x: nat, y: nat, z: nat): string {
    PyText.Print(w) + "." + (PyText.Print(x) + "." + (PyText.Print(y) + "." + PyText.Print(z)))
  }

  /** An IPv4 address in dotted decimal and a 16-bit port. */
  ghost predicate IsIpv4Endpoint(a: Address) {
    && a.port < 65536
    && exists w: nat, x: nat, y: nat, z: nat ::
         w < 256 && x < 256 && y < 256 && z < 256 && a.ip == Dotted(w, x, y, z)
  }

  lemma OctetIsPrint(s: string) returns (n: nat)
    requires IsOctet(s)
    ensures n < 256 && s == PyText.Print(n)
  {
    n := PyText.DigitsValue(s);
    PyText.PrintIff(s, n);
  }

  lemma PrintIsOctet(n: nat)
    requires n < 256
    ensures IsOctet(PyText.Print(n)) && '.' !in PyText.Print(n)
  {
    PyText.PrintIff(PyText.Print(n), n);
    ThreeDigits(n);
  }

  lemma ThreeDigits(n: nat)
    requires n < 256
    ensures |PyText.Print(n)| <= 3
  {
    if n >= 10 {
      assert |PyText.Print(n / 10)| <= 2;
    }
  }

  lemma DottedLast(s: string) returns (n: nat)
    requires IsDotted(s, 1)
    ensures n < 256 && s == PyText.Print(n)
  {
    assert s[..|s|] == s;
    n := OctetIsPrint(s);
  }

  lemma DottedFirst(s: string, k: nat) returns (n: nat, rest: string)
    requires k > 1 && IsDotted(s, k)
    ensures n < 256 && IsDotted(rest, k - 1) && s == PyText.Print(n) + "." + rest
  {
    var i := PyText.IndexOf(s, '.');
    n := OctetIsPrint(s[..i]);
    rest := s[i + 1..];
    assert s == s[..i] + [s[i]] + rest;
  }

  lemma DottedOne(n: nat)
    requires n < 256
    ensures IsDotted(PyText.Print(n), 1)
  {
    PrintIsOctet(n);
    var s := PyText.Print(n);
    assert PyText.IndexOf(s, '.') == |s| && s[..|s|] == s;
  }

  lemma DottedMore(n: nat, rest: string, k: nat)
    requires n < 256 && IsDotted(rest, k) && k >= 1
    ensures IsDotted(PyText.Print(n) + "." + rest, k + 1)
  {
    hide IsOctet;
    PrintIsOctet(n);
    var s := PyText.Print(n) + "." + rest;
    PyText.IndexOfSeam(PyText.Print(n), '.', rest);
    assert s[..|PyText.Print(n)|] == PyText.Print(n) && s[|PyText.Print(n)| + 1..] == rest;
  }

  lemma DottedFour(s: string) returns (w: nat, x: nat, y: nat, z: nat)
    requires IsDotted(s, 4)
    ensures w < 256 && x < 256 && y < 256 && z < 256 && s == Dotted(w, x, y, z)
  {
    hide IsDotted, PyText.Print;
    var r1, r2, r3;
    w, r1 := DottedFirst(s, 4);
    x, r2 := DottedFirst(r1, 3);
    y, r3 := DottedFirst(r2, 2);
    z := DottedLast(r3);
  }

  lemma FourDotted(w: nat, x: nat, y: nat, z: nat)
    requires w < 256 && x < 256 && y < 256 && z < 256
    ensures IsDotted(Dotted(w, x, y, z), 4)
  {
    hide IsDotted, PyText.Print;
    var last := PyText.Print(z);
    DottedOne(z);
    DottedMore(y, last, 1);
    var two := PyText.Print(y) + "." + last;
    DottedMore(x, two, 2);
    DottedMore(w, PyText.Print(x) + "." + two, 3);
  }

  /** The check accepts exactly the IPv4 addresses in dotted decimal with a 16-bit port. */
  lemma AddressValidIff(a: Address)
    ensures IsAddressValid(a) <==> IsIpv4Endpoint(a)
  {
    hide IsDotted, Dotted;
    if IsAddressValid(a) {
      var w, x, y, z := DottedFour(a.ip);
    }
    if IsIpv4Endpoint(a) {
      var w: nat, x: nat, y: nat, z: nat :|
        w < 256 && x < 256 && y < 256 && z < 256 && a.ip == Dotted(w, x, y, z);
      FourDotted(w, x, y, z);
    }
  }
}
