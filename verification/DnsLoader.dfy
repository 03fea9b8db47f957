/**
  The record loader: lines of "address name" into a table that grows by doubling. The lines
  are given; `inet_addr` is a parameter.
 */
module DnsLoader {
  import opened Wrappers
  import opened DnsWire
  import opened DnsResolver
  import Arrays

  type Ipv4 = ip: octets | |ip| == 4 witness [0, 0, 0, 0]

  const SPACE: bv8 := 32

  const NEWLINE: bv8 := 10

  function SkipSpaces(s: octets): octets {
    if s != [] && s[0] == SPACE then SkipSpaces(s[1..]) else s
  }

  function TokenLength(s: octets): (n: nat)
    ensures n <= |s|
    ensures forall i :: 0 <= i < n ==> s[i] != SPACE
    ensures n < |s| ==> s[n] == SPACE
  {
    if s == [] || s[0] == SPACE then 0 else 1 + TokenLength(s[1..])
  }

  /** `strtok` with a blank: the next token and what is left for the following call; `None` is
      the null pointer. */
  function Token(s: octets): Option<(octets, octets)> {
    var t := SkipSpaces(s);
    if t == [] then None
    else
      var n := TokenLength(t);
      Some((t[..n], if n < |t| then t[n + 1..] else []))
  }

  /** `extract_IPV4`: the first two tokens, the second without its last byte; `None` where a
      missing second token makes the C code dereference a null pointer. */
  function ExtractIpv4(line: octets): Option<(octets, octets)> {
    match Token(CString(line))
    case None => None
    case Some((ip, rest)) =>
      match Token(rest)
      case None => None
      case Some((domain, _)) => if domain == [] then None else Some((ip, domain[..|domain| - 1]))
  }

  /** The table of a list of lines: one record for each that is more than one byte long. */
  function TableOf(lines: seq<octets>, inetAddr: octets -> Ipv4): Option<seq<Record>> {
    if lines == [] then Some([])
    else if |lines[0]| == 1 then TableOf(lines[1..], inetAddr)
    else
      match ExtractIpv4(lines[0])
      case None => None
      case Some((ip, domain)) =>
        match TableOf(lines[1..], inetAddr)
        case None => None
        case Some(rest) => Some([Record(domain, inetAddr(ip))] + rest)
  }

  function Before(done: seq<Record>, rest: Option<seq<Record>>): Option<seq<Record>> {
    match rest
    case None => None
    case Some(more) => Some(done + more)
  }

  const NO_RECORD := Record([], [0, 0, 0, 0])

  /** `load_dns_server_data`: the loop over the lines, with the table doubling when it is full.
      Every store is below the capacity, and the size returned is the number of records. */
  method LoadDnsServerData(lines: seq<octets>, capacity: nat, inetAddr: octets -> Ipv4)
    returns (records: array<Record>, size: nat, defined: bool)
    requires capacity >= 1
    ensures fresh(records) && size <= records.Length
    ensures defined <==> TableOf(lines, inetAddr).Some?
    ensures defined ==> records[..size] == TableOf(lines, inetAddr).value
  {
    hide TableOf, Before, ExtractIpv4;
    records := new Record[capacity](i => NO_RECORD);
    size := 0;
    var i := 0;
    BeforeNothing(TableOf(lines, inetAddr));
    assert lines[0..] == lines && records[..0] == [];
    while i < |lines|
      invariant 0 <= i <= |lines|
      invariant fresh(records) && 1 <= records.Length && size <= records.Length
      invariant TableOf(lines, inetAddr) == Before(records[..size], TableOf(lines[i..], inetAddr))
    {
      ghost var rest := lines[i..];
      TableOfFirst(rest, inetAddr);
      assert rest[0] == lines[i] && rest[1..] == lines[i + 1..];
      if |lines[i]| != 1 {
        var extracted := ExtractIpv4(lines[i]);
        if extracted == None {
          return records, size, false;
        }
        var (ip, domain) := extracted.value;
        ghost var done := records[..size];
        if size == records.Length {
          records := Arrays.Reallocate(records, size * 2, NO_RECORD);
        }
        assert records[..size] == done;
        var r := Record(domain, inetAddr(ip));
        Arrays.Store(records, size, r);
        size := size + 1;
        BeforeOne(done, r, TableOf(rest[1..], inetAddr));
      }
      i := i + 1;
    }
    TableOfEnd(records[..size], lines[i..], inetAddr);
    return records, size, true;
  }

  lemma TableOfFirst(lines: seq<octets>, inetAddr: octets -> Ipv4)
    requires lines != []
    ensures TableOf(lines, inetAddr)
            == if |lines[0]| == 1 then TableOf(lines[1..], inetAddr)
               else match ExtractIpv4(lines[0])
                    case None => None
                    case Some((ip, domain)) => Before([Record(domain, inetAddr(ip))], TableOf(lines[1..], inetAddr))
    ensures forall done :: Before(done, None) == None
  {
  }

  lemma TableOfEnd(done: seq<Record>, lines: seq<octets>, inetAddr: octets -> Ipv4)
    requires lines == []
    ensures Before(done, TableOf(lines, inetAddr)) == Some(done)
  {
    assert done + [] == done;
  }

  lemma BeforeNothing(t: Option<seq<Record>>)
    ensures Before([], t) == t
  {
    if t.Some? {
      assert [] + t.value == t.value;
    }
  }

  lemma BeforeOne(done: seq<Record>, r: Record, t: Option<seq<Record>>)
    ensures Before(done, Before([r], t)) == Before(done + [r], t)
  {
    if t.Some? {
      assert done + ([r] + t.value) == done + [r] + t.value;
    }
  }

  // Well-formed lines.

  predicate IsToken(s: octets) {
    forall i :: 0 <= i < |s| ==> s[i] != SPACE && s[i] != 0
  }

  function LineOf(ip: octets, domain: octets): octets {
    ip + [SPACE] + domain + [NEWLINE]
  }

  lemma TokenOfWord(word: octets, rest: octets)
    requires IsToken(word) && word != []
    ensures Token(word + [SPACE] + rest) == Some((word, rest))
    ensures Token(word) == Some((word, []))
  {
    var s := word + [SPACE] + rest;
    assert s[0] == word[0] && s[|word|] == SPACE;
    assert forall i :: 0 <= i < |word| ==> s[i] == word[i];
    assert TokenLength(s) == |word|;
    assert s[..|word|] == word && s[|word| + 1..] == rest;
    assert TokenLength(word) == |word| && word[..|word|] == word;
  }

  lemma {:induction false} CStringWhole(s: octets)
    requires forall i :: 0 <= i < |s| ==> s[i] != 0
    ensures CString(s) == s
  {
    if s != [] {
      CStringWhole(s[1..]);
      assert s == [s[0]] + s[1..];
    }
  }

  /** A line "address name" is split into exactly these two. */
  lemma WellFormedLine(ip: octets, domain: octets)
    requires IsToken(ip) && ip != [] && IsToken(domain)
    ensures ExtractIpv4(LineOf(ip, domain)) == Some((ip, domain))
    ensures LineOf(ip, domain) == ip + [32] + domain + [10] && |LineOf(ip, domain)| > 1
  {
    var line := LineOf(ip, domain);
    var second := domain + [NEWLINE];
    assert line == ip + [SPACE] + second;
    CStringWhole(line);
    TokenOfWord(ip, second);
    TokenOfWord(second, []);
    assert second[..|second| - 1] == domain;
  }

  /** A line of the file: blank, or an address and a name. */
  datatype Line = Blank | Entry(ip: octets, domain: octets)

  predicate LineOk(l: Line) {
    l.Entry? ==> IsToken(l.ip) && l.ip != [] && IsToken(l.domain)
  }

  function Text(lines: seq<Line>): seq<octets> {
    seq(|lines|, i requires 0 <= i < |lines| =>
      if lines[i].Blank? then [NEWLINE] else LineOf(lines[i].ip, lines[i].domain))
  }

  function Entries(lines: seq<Line>, inetAddr: octets -> Ipv4): seq<Record> {
    if lines == [] then []
    else if lines[0].Blank? then Entries(lines[1..], inetAddr)
    else [Record(lines[0].domain, inetAddr(lines[0].ip))] + Entries(lines[1..], inetAddr)
  }

  /** The table of well-formed lines is the entries in order. */
  lemma {:induction false} TableOfLines(lines: seq<Line>, inetAddr: octets -> Ipv4)
    requires forall i :: 0 <= i < |lines| ==> LineOk(lines[i])
    ensures TableOf(Text(lines), inetAddr) == Some(Entries(lines, inetAddr))
    ensures forall i :: 0 <= i < |lines| && lines[i].Blank? ==> Text(lines)[i] == [10]
  {
    hide ExtractIpv4, LineOf;
    if lines == [] {
      assert Text(lines) == [];
    } else {
      TableOfLines(lines[1..], inetAddr);
      assert Text(lines)[1..] == Text(lines[1..]);
      assert LineOk(lines[0]);
      if lines[0].Entry? {
        WellFormedLine(lines[0].ip, lines[0].domain);
      }
    }
  }

  /** The first line that names `name`. */
  function FirstLine(lines: seq<Line>, name: octets): Option<octets> {
    if lines == [] then None
    else if lines[0].Entry? && lines[0].domain == name then Some(lines[0].ip)
    else FirstLine(lines[1..], name)
  }

  /** Loading and looking up together: the address found is that of the first line with the name. */
  lemma {:induction false} LookupIsFirstLine(lines: seq<Line>, inetAddr: octets -> Ipv4, name: octets)
    requires forall i :: 0 <= i < |lines| ==> LineOk(lines[i])
    ensures TableOf(Text(lines), inetAddr).Some?
    ensures FindRecord(TableOf(Text(lines), inetAddr).value, name)
            == match FirstLine(lines, name)
               case None => None
               case Some(ip) => Some(Record(name, inetAddr(ip)))
    decreases |lines|
  {
    hide LineOf, TableOf, Text;
    TableOfLines(lines, inetAddr);
    if lines != [] {
      var rest := lines[1..];
      assert forall i :: 0 <= i < |rest| ==> rest[i] == lines[i + 1];
      LookupIsFirstLine(rest, inetAddr, name);
      TableOfLines(rest, inetAddr);
      if lines[0].Entry? {
        assert Entries(lines, inetAddr)[1..] == Entries(rest, inetAddr);
      }
    }
  }

  // Lines of any spacing.

  function Blanks(n: nat): octets {
    seq(n, i => 32)
  }

  lemma {:induction false} BlanksSkipped(n: nat, rest: octets)
    requires rest == [] || rest[0] != 32
    ensures SkipSpaces(Blanks(n) + rest) == rest
  {
    if n == 0 {
      assert Blanks(0) + rest == rest;
    } else {
      assert (Blanks(n) + rest)[1..] == Blanks(n - 1) + rest;
      BlanksSkipped(n - 1, rest);
    }
  }

  lemma TokenSkipsBlanks(n: nat, rest: octets)
    requires rest == [] || rest[0] != 32
    ensures Token(Blanks(n) + rest) == Token(rest)
  {
    hide SkipSpaces, TokenLength;
    BlanksSkipped(n, rest);
    BlanksSkipped(0, rest);
    assert Blanks(0) + rest == rest;
  }

  lemma NoToken()
    ensures Token([]) == None
  {
  }

  /** Blanks before a word are passed over; the word ends at the next blank or with the text. */
  lemma TokenBehindBlanks(n: nat, word: octets, rest: octets)
    requires IsToken(word) && word != [] && (rest == [] || rest[0] == 32)
    ensures Token(Blanks(n) + (word + rest)) == Some((word, if rest == [] then [] else rest[1..]))
    ensures Token(Blanks(n)) == None
  {
    hide Token, Blanks;
    assert Blanks(n) + [] == Blanks(n);
    TokenSkipsBlanks(n, word + rest);
    TokenSkipsBlanks(n, []);
    NoToken();
    if rest == [] {
      TokenOfWord(word, []);
      assert word + rest == word;
    } else {
      TokenOfWord(word, rest[1..]);
      assert word + rest == word + [SPACE] + rest[1..];
    }
  }

  predicate ZeroFree(s: octets) {
    forall i :: 0 <= i < |s| ==> s[i] != 0
  }

  lemma MoreBlanks(n: nat, rest: octets)
    requires n >= 1
    ensures Blanks(n) + rest == [32] + (Blanks(n - 1) + rest)
  {
  }

  /** Of a line that starts, blanks aside, with two words, the first is the address and the second,
      without its last byte, the name. The last byte is the line end only where that follows the
      name at once: a last line without one, or a blank before it, costs the name a byte. */
  lemma LineSplits(i: nat, ip: octets, j: nat, second: octets, tail: octets)
    requires IsToken(ip) && ip != [] && IsToken(second) && second != []
    requires j >= 1 && (tail == [] || tail[0] == 32) && ZeroFree(tail)
    ensures ExtractIpv4(Blanks(i) + (ip + (Blanks(j) + (second + tail)))) == Some((ip, second[..|second| - 1]))
  {
    hide Token;
    LineIsZeroFree(i, ip, j, second, tail);
    CStringWhole(Blanks(i) + (ip + (Blanks(j) + (second + tail))));
    MoreBlanks(j, second + tail);
    TokenBehindBlanks(i, ip, Blanks(j) + (second + tail));
    TokenBehindBlanks(j - 1, second, tail);
    assert (Blanks(j) + (second + tail))[1..] == Blanks(j - 1) + (second + tail);
  }

  lemma LineIsZeroFree(i: nat, ip: octets, j: nat, second: octets, tail: octets)
    requires IsToken(ip) && IsToken(second) && ZeroFree(tail)
    ensures ZeroFree(Blanks(i) + (ip + (Blanks(j) + (second + tail))))
  {
    ZeroFreeConcat(second, tail);
    ZeroFreeConcat(Blanks(j), second + tail);
    ZeroFreeConcat(ip, Blanks(j) + (second + tail));
    ZeroFreeConcat(Blanks(i), ip + (Blanks(j) + (second + tail)));
  }

  lemma ZeroFreeConcat(s: octets, t: octets)
    requires ZeroFree(s) && ZeroFree(t)
    ensures ZeroFree(s + t)
  {
  }

  /** A line with fewer than two words makes the program use a null pointer. */
  lemma ShortLine(i: nat, word: octets, j: nat)
    requires IsToken(word) && word != []
    ensures ExtractIpv4(Blanks(i)) == None && ExtractIpv4(Blanks(i) + (word + Blanks(j))) == None
  {
    hide Token;
    CStringWhole(Blanks(i));
    ZeroFreeConcat(word, Blanks(j));
    ZeroFreeConcat(Blanks(i), word + Blanks(j));
    CStringWhole(Blanks(i) + (word + Blanks(j)));
    TokenBehindBlanks(i, word, Blanks(j));
    NoToken();
    if j > 0 {
      assert Blanks(j)[1..] == Blanks(j - 1);
      TokenBehindBlanks(j - 1, word, []);
    }
  }

  /** The name of a last line without a line end, or with a blank before it, loses its last byte. */
  lemma NameLosesByte(ip: octets, domain: octets)
    requires IsToken(ip) && ip != [] && IsToken(domain) && domain != []
    ensures ExtractIpv4(ip + ([32] + domain)) == Some((ip, domain[..|domain| - 1]))
    ensures ExtractIpv4(ip + ([32] + (domain + [32, 10]))) == Some((ip, domain[..|domain| - 1]))
  {
    hide ExtractIpv4;
    assert Blanks(0) == [] && Blanks(1) == [32];
    LineSplits(0, ip, 1, domain, []);
    assert domain + [] == domain && [] + (ip + ([32] + domain)) == ip + ([32] + domain);
    LineSplits(0, ip, 1, domain, [32, 10]);
    assert [] + (ip + ([32] + (domain + [32, 10]))) == ip + ([32] + (domain + [32, 10]));
  }
}
