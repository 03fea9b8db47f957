/**
  The text operations the Python programs lean on: `str(n)`, `int(s)` and splitting at
  a separator.
 */
module PyText {
  import opened Wrappers

  predicate IsDigit(c: char) {
    '0' <= c <= '9'
  }

  predicate AllDigits(s: string) {
    forall i :: 0 <= i < |s| ==> IsDigit(s[i])
  }

  function Digit(d: nat): (c: char)
    requires d < 10
    ensures IsDigit(c) && c as int - '0' as int == d
  {
    ('0' as int + d) as char
  }

  /** `str(n)` and `f"{n}"` of a non-negative integer. */
  function Print(n: nat): (s: string)
    ensures s != [] && AllDigits(s)
  {
    if n < 10 then [Digit(n)] else Print(n / 10) + [Digit(n % 10)]
  }

  function DigitsValue(s: string): nat
    requires AllDigits(s)
  {
    if s == [] then 0
    else DigitsValue(s[..|s| - 1]) * 10 + (s[|s| - 1] as int - '0' as int)
  }

  predicate IsSpace(c: char) {
    c == ' ' || 9 <= c as int <= 13 || 28 <= c as int <= 31
  }

  function StripLeft(s: string): string {
    if s != [] && IsSpace(s[0]) then StripLeft(s[1..]) else s
  }

  function StripRight(s: string): string {
    if s != [] && IsSpace(s[|s| - 1]) then StripRight(s[..|s| - 1]) else s
  }

  /** `int(s)`: surrounding blanks, one optional sign, then digits; `None` is the ValueError. */
  function ParseInt(s: string): Option<int> {
    var t := StripRight(StripLeft(s));
    var signed := t != [] && (t[0] == '-' || t[0] == '+');
    var digits := if signed then t[1..] else t;
    if digits == [] || !AllDigits(digits) then None
    else
      var magnitude: int := DigitsValue(digits);
      Some(if t[0] == '-' then -magnitude else magnitude)
  }

  lemma {:induction false} ValueOfPrinted(n: nat)
    ensures DigitsValue(Print(n)) == n
  {
    if n < 10 {
      assert Print(n)[..0] == [];
    } else {
      ValueOfPrinted(n / 10);
      assert Print(n)[..|Print(n)| - 1] == Print(n / 10);
    }
  }

  lemma {:induction false} PrintLength(n: nat)
    ensures n < 65536 ==> |Print(n)| <= 5
  {
    PrintLengthBelow(n, 5, 100000);
  }

  lemma {:induction false} PrintLengthBelow(n: nat, digits: nat, bound: nat)
    requires digits >= 1 && (digits == 1 ==> bound == 10)
    requires digits <= 5 && bound == [10, 100, 1000, 10000, 100000][digits - 1]
    ensures n < bound ==> |Print(n)| <= digits
  {
    if n >= 10 && digits > 1 {
      PrintLengthBelow(n / 10, digits - 1, bound / 10);
    }
  }

  /** Reading a printed number gives the number back. */
  lemma ParseOfPrint(n: nat)
    ensures ParseInt(Print(n)) == Some(n)
  {
    ValueOfPrinted(n);
  }

  /** Every non-empty prefix of a printed number is a printed number. */
  lemma {:induction false} PrefixOfPrinted(n: nat, k: nat) returns (m: nat)
    requires 1 <= k <= |Print(n)|
    ensures Print(n)[..k] == Print(m)
  {
    if k == |Print(n)| {
      m := n;
      assert Print(n)[..k] == Print(n);
    } else {
      m := PrefixOfPrinted(n / 10, k);
      assert Print(n)[..k] == Print(n / 10)[..k];
    }
  }

  /** A larger number takes no fewer digits. */
  lemma {:induction false} PrintGrows(m: nat, n: nat)
    requires m <= n
    ensures |Print(m)| <= |Print(n)|
    decreases n
  {
    if n >= 10 && m >= 10 {
      PrintGrows(m / 10, n / 10);
    }
  }

  /** The position of the first `c`, or the length when there is none. */
  function IndexOf(s: string, c: char): (i: nat)
    ensures i <= |s|
    ensures forall k :: 0 <= k < i ==> s[k] != c
    ensures i < |s| ==> s[i] == c
  {
    if s == [] || s[0] == c then 0 else 1 + IndexOf(s[1..], c)
  }

  /** Joining two texts with a separator the first one lacks puts the first separator at the seam. */
  lemma IndexOfSeam(left: string, c: char, right: string)
    requires forall i :: 0 <= i < |left| ==> left[i] != c
    ensures IndexOf(left + [c] + right, c) == |left|
  {
    var s := left + [c] + right;
    assert s[|left|] == c;
    assert forall i :: 0 <= i < |left| ==> s[i] == left[i];
  }

  /** `a, b = s.split(c)`: succeeds only when `s` holds exactly one `c`. */
  function SplitPair(s: string, c: char): Option<(string, string)> {
    var i := IndexOf(s, c);
    if i == |s| || IndexOf(s[i + 1..], c) < |s| - i - 1 then None
    else Some((s[..i], s[i + 1..]))
  }

  lemma SplitPairOfJoined(left: string, c: char, right: string)
    requires forall i :: 0 <= i < |left| ==> left[i] != c
    requires forall i :: 0 <= i < |right| ==> right[i] != c
    ensures SplitPair(left + [c] + right, c) == Some((left, right))
  {
    IndexOfSeam(left, c, right);
    var s := left + [c] + right;
    assert s[..|left|] == left && s[|left| + 1..] == right;
  }

  /** Splitting into a pair succeeds exactly on two texts without the separator joined by it. */
  lemma SplitPairIff(s: string, c: char, left: string, right: string)
    ensures SplitPair(s, c) == Some((left, right)) <==> s == left + [c] + right && c !in left && c !in right
  {
    if s == left + [c] + right && c !in left && c !in right {
      SplitPairOfJoined(left, c, right);
    }
    var i := IndexOf(s, c);
    if SplitPair(s, c) == Some((left, right)) {
      assert s == s[..i] + [c] + s[i + 1..];
    }
  }

  lemma {:induction false} CanonicalIsPrint(s: string, n: nat)
    requires AllDigits(s) && s != [] && DigitsValue(s) == n && (|s| > 1 ==> s[0] != '0')
    ensures s == Print(n)
    decreases |s|
  {
    var front, last := s[..|s| - 1], s[|s| - 1];
    assert s == front + [last];
    if front == [] {
      assert DigitsValue(front) == 0;
    } else {
      assert front[0] == s[0];
      CanonicalIsPrint(front, DigitsValue(front));
      LeadingDigit(front);
    }
  }

  lemma {:induction false} LeadingDigit(s: string)
    requires AllDigits(s) && s != [] && s[0] != '0'
    ensures DigitsValue(s) > 0
  {
    if |s| > 1 {
      LeadingDigit(s[..|s| - 1]);
    }
  }

  lemma {:induction false} PrintHasNoLeadingZero(n: nat)
    ensures |Print(n)| > 1 ==> Print(n)[0] != '0'
    ensures n > 0 ==> Print(n)[0] != '0'
  {
    if n >= 10 {
      PrintHasNoLeadingZero(n / 10);
    }
  }

  /** The print of a number is the one row of digits without a leading zero that has its value. */
  lemma PrintIff(s: string, n: nat)
    ensures s == Print(n) <==> s != [] && AllDigits(s) && DigitsValue(s) == n && (|s| > 1 ==> s[0] != '0')
  {
    ValueOfPrinted(n);
    PrintHasNoLeadingZero(n);
    if s != [] && AllDigits(s) && DigitsValue(s) == n && (|s| > 1 ==> s[0] != '0') {
      CanonicalIsPrint(s, n);
    }
  }

  /** Digits are those of base ten. */
  lemma PrintExample()
    ensures Print(50210) == "50210" && Print(0) == "0"
  {
    assert Print(5) == "5" && Print(50) == "50" && Print(502) == "502" && Print(5021) == "5021";
  }

  /** The blanks of ASCII that `int` passes over. */
  predicate Blank(s: string) {
    forall i :: 0 <= i < |s| ==> s[i] as int in {9, 10, 11, 12, 13, 28, 29, 30, 31, 32}
  }

  function Signed(negative: bool, magnitude: int): int {
    if negative then -magnitude else magnitude
  }

  /** `s` is a numeral of value `n` as Python writes it, with blanks around it. */
  predicate Spells(s: string, before: string, sign: string, digits: string, after: string, n: int) {
    && s == before + sign + digits + after && Blank(before) && Blank(after)
    && (sign == "" || sign == "+" || sign == "-")
    && digits != [] && AllDigits(digits)
    && n == Signed(sign == "-", DigitsValue(digits))
  }

  lemma {:induction false} StripLeftSplits(s: string) returns (before: string)
    ensures s == before + StripLeft(s) && Blank(before)
    ensures StripLeft(s) == [] || !IsSpace(StripLeft(s)[0])
  {
    if s != [] && IsSpace(s[0]) {
      before := StripLeftSplits(s[1..]);
      before := [s[0]] + before;
    } else {
      before := [];
    }
  }

  lemma {:induction false} StripRightSplits(s: string) returns (after: string)
    ensures s == StripRight(s) + after && Blank(after)
    ensures StripRight(s) == [] || !IsSpace(StripRight(s)[|StripRight(s)| - 1])
  {
    if s != [] && IsSpace(s[|s| - 1]) {
      after := StripRightSplits(s[..|s| - 1]);
      after := after + [s[|s| - 1]];
    } else {
      after := [];
    }
  }

  lemma {:induction false} StripLeftOf(before: string, core: string)
    requires Blank(before) && core != [] && !IsSpace(core[0])
    ensures StripLeft(before + core) == core
  {
    if before == [] {
      assert before + core == core;
    } else {
      assert (before + core)[1..] == before[1..] + core;
      StripLeftOf(before[1..], core);
    }
  }

  lemma {:induction false} StripRightOf(core: string, after: string)
    requires Blank(after) && core != [] && !IsSpace(core[|core| - 1])
    ensures StripRight(core + after) == core
  {
    if after == [] {
      assert core + after == core;
    } else {
      assert (core + after)[..|core + after| - 1] == core + after[..|after| - 1];
      StripRightOf(core, after[..|after| - 1]);
    }
  }

  /** Blanks around a text that neither starts nor ends with one are stripped. */
  lemma StripOf(before: string, core: string, after: string)
    requires Blank(before) && Blank(after) && core != []
    requires !IsSpace(core[0]) && !IsSpace(core[|core| - 1])
    ensures StripRight(StripLeft(before + core + after)) == core
  {
    assert before + core + after == before + (core + after);
    StripLeftOf(before, core + after);
    StripRightOf(core, after);
  }

  /** What stands between the blanks: a sign or none, then digits. */
  lemma CoreReads(sign: string, digits: string)
    requires sign == "" || sign == "+" || sign == "-"
    requires digits != [] && AllDigits(digits)
    ensures var core := sign + digits;
            && !IsSpace(core[0]) && !IsSpace(core[|core| - 1])
            && (core[0] == '-' <==> sign == "-") && (core[0] == '+' <==> sign == "+")
            && (if sign == "" then core else core[1..]) == digits
  {
    assert IsDigit(digits[0]) && IsDigit(digits[|digits| - 1]);
  }

  lemma SpelledIsRead(s: string, before: string, sign: string, digits: string, after: string, n: int)
    requires Spells(s, before, sign, digits, after, n)
    ensures ParseInt(s) == Some(n)
  {
    hide AllDigits, DigitsValue, StripLeft, StripRight, IsSpace, Blank;
    CoreReads(sign, digits);
    assert s == before + (sign + digits) + after;
    StripOf(before, sign + digits, after);
  }

  lemma SignSplits(t: string) returns (sign: string, digits: string)
    ensures t == sign + digits && (sign == "" || sign == "+" || sign == "-")
    ensures sign == if t != [] && (t[0] == '-' || t[0] == '+') then t[..1] else ""
  {
    sign := if t != [] && (t[0] == '-' || t[0] == '+') then t[..1] else "";
    digits := t[|sign|..];
  }

  lemma ReadIsSpelled(s: string, n: int) returns (before: string, sign: string, digits: string, after: string)
    requires ParseInt(s) == Some(n)
    ensures Spells(s, before, sign, digits, after, n)
  {
    hide AllDigits, DigitsValue, StripLeft, StripRight, IsSpace, Blank;
    before := StripLeftSplits(s);
    after := StripRightSplits(StripLeft(s));
    var t := StripRight(StripLeft(s));
    sign, digits := SignSplits(t);
    assert s == before + (t + after) == before + sign + digits + after;
    assert digits == if sign == "" then t else t[1..];
    assert sign == "-" <==> t[0] == '-';
  }

  /** `int` reads exactly blanks, a sign or none, digits and blanks again. */
  lemma ParseIntIff(s: string, n: int)
    ensures ParseInt(s) == Some(n)
            <==> exists before, sign, digits, after :: Spells(s, before, sign, digits, after, n)
  {
    hide ParseInt, Spells;
    if before, sign, digits, after :| Spells(s, before, sign, digits, after, n) {
      SpelledIsRead(s, before, sign, digits, after, n);
    }
    if ParseInt(s) == Some(n) {
      var before, sign, digits, after := ReadIsSpelled(s, n);
    }
  }
}
