/**
  The dotted name the records are searched by: how long it is, and that it stands for one
  list of labels only.
 */
module DnsNames {
  import opened Wrappers
  import opened DnsWire
  import opened DnsResolver

  predicate NoZero(s: octets) {
    forall i :: 0 <= i < |s| ==> s[i] != 0
  }

  /** Every label is non-empty and free of zero bytes. */
  predicate TextLabels(labels: seq<Label>) {
    LabelsOk(labels) && forall i :: 0 <= i < |labels| ==> NoZero(labels[i].name)
  }

  /** Moreover no label contains a dot. */
  predicate DotlessLabels(labels: seq<Label>) {
    TextLabels(labels) && forall i :: 0 <= i < |labels| ==> DOT !in labels[i].name
  }

  lemma {:induction false} CStringOfText(s: octets)
    ensures |CString(s)| <= |s|
    ensures CString(s) == s <==> NoZero(s)
  {
    if s == [] {
    } else {
      CStringOfText(s[1..]);
      if s[0] != 0 {
        assert CString(s)[1..] == CString(s[1..]);
        assert NoZero(s) ==> NoZero(s[1..]);
        assert s == [s[0]] + s[1..];
      }
    }
  }

  /** The dotted name is two bytes shorter than the encoded one exactly when no label holds a
      zero byte, and never longer; the root's is empty. */
  lemma {:induction false} DottedLength(labels: seq<Label>)
    requires LabelsOk(labels) && labels != []
    ensures |DottedName(labels)| + 2 <= |EncodeName(labels)|
    ensures |DottedName(labels)| + 2 == |EncodeName(labels)| <==> TextLabels(labels)
  {
    hide Val;
    CStringLength(labels[0].name);
    var tail := labels[1..];
    if tail == [] {
      assert EncodeLabels(tail) == [];
      assert TextLabels(labels) <==> NoZero(labels[0].name);
    } else {
      DottedLength(tail);
      assert TextLabels(labels) <==> NoZero(labels[0].name) && TextLabels(tail) by {
        TextSplits(labels);
      }
    }
  }

  lemma CStringLength(s: octets)
    ensures |CString(s)| <= |s|
    ensures |CString(s)| == |s| <==> NoZero(s)
  {
    CStringOfText(s);
    CStringIsPrefix(s);
  }

  lemma {:induction false} CStringIsPrefix(s: octets)
    ensures CString(s) <= s
  {
    if s != [] && s[0] != 0 {
      CStringIsPrefix(s[1..]);
    }
  }

  lemma TextSplits(labels: seq<Label>)
    requires LabelsOk(labels) && labels != []
    ensures TextLabels(labels) <==> NoZero(labels[0].name) && TextLabels(labels[1..])
  {
    hide Val;
    var tail := labels[1..];
    assert forall i :: 0 <= i < |tail| ==> tail[i] == labels[i + 1];
    if NoZero(labels[0].name) && TextLabels(tail) {
      forall i | 0 <= i < |labels| ensures NoZero(labels[i].name) {
        if i > 0 {
          assert labels[i] == tail[i - 1];
        }
      }
    }
  }

  /** A legal name's dotted form fits the 256-byte buffer with its closing zero. */
  lemma LegalNameFits(labels: seq<Label>)
    requires LabelsOk(labels) && |EncodeName(labels)| <= 255
    ensures |DottedName(labels)| <= 253
  {
    hide EncodeName;
    if labels != [] {
      DottedLength(labels);
    }
  }

  function FirstDot(s: octets): nat {
    if s == [] || s[0] == DOT then 0 else 1 + FirstDot(s[1..])
  }

  lemma {:induction false} FirstDotAtSeam(a: octets, x: octets)
    requires DOT !in a
    ensures FirstDot(a + [DOT] + x) == |a| && FirstDot(a) == |a|
  {
    var s := a + [DOT] + x;
    if a == [] {
      assert s[0] == DOT;
    } else {
      FirstDotAtSeam(a[1..], x);
      assert s[1..] == a[1..] + [DOT] + x;
    }
  }

  /** Equal dotted names begin with equal labels. */
  lemma FirstLabelsAgree(a: octets, x: octets, b: octets, y: octets)
    requires DOT !in a && DOT !in b
    requires a + [DOT] + x == b + [DOT] + y
    ensures a == b && x == y
  {
    var s := a + [DOT] + x;
    FirstDotAtSeam(a, x);
    FirstDotAtSeam(b, y);
    assert a == s[..|a|] == b;
    assert x == s[|a| + 1..] == y;
  }

  lemma DotInSeam(a: octets, x: octets, b: octets)
    requires DOT !in b
    ensures a + [DOT] + x != b
  {
    assert (a + [DOT] + x)[|a|] == DOT;
  }

  lemma DotlessTail(labels: seq<Label>)
    requires DotlessLabels(labels) && labels != []
    ensures DotlessLabels(labels[1..])
    ensures CString(labels[0].name) == labels[0].name && labels[0].name != []
  {
    hide Val;
    assert LabelOk(labels[0]);
    CStringOfText(labels[0].name);
    assert forall i :: 0 <= i < |labels[1..]| ==> labels[1..][i] == labels[i + 1];
    LabelNotEmpty(labels[0]);
  }

  lemma LabelNotEmpty(l: Label)
    requires LabelOk(l)
    ensures l.name != []
  {
  }

  /** The join loop is injective: dotless text labels are determined by their dotted name. */
  lemma {:induction false} JoinInjective(a: seq<Label>, b: seq<Label>)
    requires DotlessLabels(a) && DotlessLabels(b) && DottedName(a) == DottedName(b)
    ensures Names(a) == Names(b)
    decreases |a|
  {
    hide LabelsOk, LabelOk, CString;
    if a != [] {
      DotlessTail(a);
    }
    if b != [] {
      DotlessTail(b);
    }
    if a != [] && b != [] {
      var x, y := a[0].name, b[0].name;
      if |a| > 1 && |b| > 1 {
        FirstLabelsAgree(x, DottedName(a[1..]), y, DottedName(b[1..]));
        JoinInjective(a[1..], b[1..]);
        NamesTail(a);
        NamesTail(b);
      } else if |a| > 1 {
        DotInSeam(x, DottedName(a[1..]), y);
      } else if |b| > 1 {
        DotInSeam(y, DottedName(b[1..]), x);
      }
    }
  }

  function Names(labels: seq<Label>): seq<octets> {
    seq(|labels|, i requires 0 <= i < |labels| => labels[i].name)
  }

  lemma NamesTail(labels: seq<Label>)
    requires labels != []
    ensures Names(labels) == [labels[0].name] + Names(labels[1..])
  {
  }

  /** The search returns the first record of the name, and none exactly when there is none. */
  lemma {:induction false} FindsFirst(records: seq<Record>, name: octets)
    ensures match FindRecord(records, name)
            case None => forall i :: 0 <= i < |records| ==> records[i].name != name
            case Some(r) =>
              exists i :: 0 <= i < |records| && records[i] == r && r.name == name
                          && forall k :: 0 <= k < i ==> records[k].name != name
  {
    if records == [] || records[0].name == name {
    } else {
      var rest := records[1..];
      FindsFirst(rest, name);
      match FindRecord(rest, name)
      case None =>
        forall i | 0 <= i < |records| ensures records[i].name != name {
          if i > 0 {
            assert records[i] == rest[i - 1];
          }
        }
      case Some(r) =>
        var i :| 0 <= i < |rest| && rest[i] == r && forall k :: 0 <= k < i ==> rest[k].name != name;
        assert records[i + 1] == r;
        forall k | 0 <= k < i + 1 ensures records[k].name != name {
          if k > 0 {
            assert records[k] == rest[k - 1];
          }
        }
    }
  }

  /** Looking a name up by its dotted form is looking it up by its labels: a record kept under
      dotless labels `own` matches exactly the queries that ask for these labels. */
  lemma MatchesByLabels(own: seq<Label>, asked: seq<Label>)
    requires DotlessLabels(own) && DotlessLabels(asked)
    ensures DottedName(own) == DottedName(asked) <==> Names(own) == Names(asked)
  {
    hide LabelsOk, CString;
    if DottedName(own) == DottedName(asked) {
      JoinInjective(own, asked);
    }
    if Names(own) == Names(asked) {
      DottedOfNames(own, asked);
    }
  }

  /** When a query matches a record kept under dotless labels `own`, it asks for these very labels
      if and only if its own labels are free of dots and zero bytes. */
  lemma MatchIsOwnNameIff(own: seq<Label>, asked: seq<Label>)
    requires DotlessLabels(own) && LabelsOk(asked) && DottedName(own) == DottedName(asked)
    ensures Names(own) == Names(asked) <==> DotlessLabels(asked)
  {
    hide LabelsOk, CString;
    if DotlessLabels(asked) {
      JoinInjective(own, asked);
    }
    if Names(own) == Names(asked) {
      forall i | 0 <= i < |asked| ensures NoZero(asked[i].name) && DOT !in asked[i].name {
        assert |own| == |Names(own)| == |asked|;
        assert own[i].name == Names(own)[i] == Names(asked)[i] == asked[i].name;
      }
    }
  }

  lemma {:induction false} DottedOfNames(a: seq<Label>, b: seq<Label>)
    requires Names(a) == Names(b)
    ensures DottedName(a) == DottedName(b)
    decreases |a|
  {
    hide CString;
    assert |a| == |Names(a)| == |Names(b)| == |b|;
    if a != [] {
      NamesTail(a);
      NamesTail(b);
      assert a[0].name == Names(a)[0] == Names(b)[0] == b[0].name;
      assert Names(a[1..]) == Names(a)[1..] == Names(b)[1..] == Names(b[1..]);
      DottedOfNames(a[1..], b[1..]);
    }
  }

  /** A C string reaches up to the first zero byte, or to the end. */
  lemma {:induction false} CStringMeaning(s: octets)
    ensures var c := CString(s);
            c <= s && NoZero(c) && (|c| < |s| ==> s[|c|] == 0)
  {
    if s != [] && s[0] != 0 {
      CStringMeaning(s[1..]);
      var c := CString(s[1..]);
      assert CString(s) == [s[0]] + c;
      assert |c| < |s[1..]| ==> s[1..][|c|] == s[|c| + 1];
    }
  }

  /** Where the first byte 46 stands, the dot of ASCII, or the length when there is none. */
  function FirstPoint(s: octets): (n: nat)
    ensures n <= |s|
    ensures forall i :: 0 <= i < n ==> s[i] != 46
    ensures n < |s| ==> s[n] == 46
  {
    if s == [] || s[0] == 46 then 0 else 1 + FirstPoint(s[1..])
  }

  /** What stands between the dots. */
  function Pieces(s: octets): seq<octets>
    decreases |s|
  {
    var n := FirstPoint(s);
    if n == |s| then [s] else [s[..n]] + Pieces(s[n + 1..])
  }

  lemma PiecesOfSeam(a: octets, x: octets)
    requires DOT !in a
    ensures Pieces(a) == [a]
    ensures Pieces(a + [DOT] + x) == [a] + Pieces(x)
  {
    var s := a + [DOT] + x;
    assert FirstPoint(a) == |a|;
    assert s[|a|] == 46 && forall i :: 0 <= i < |a| ==> s[i] == a[i];
    assert FirstPoint(s) == |a|;
    assert s[..|a|] == a && s[|a| + 1..] == x;
  }

  /** Taking the dotted name apart at its dots gives the labels back. */
  lemma {:induction false} PiecesOfJoin(labels: seq<Label>)
    requires DotlessLabels(labels) && labels != []
    ensures Pieces(DottedName(labels)) == Names(labels)
    decreases |labels|
  {
    hide LabelsOk, LabelOk, CString, Pieces, NoZero;
    DotlessTail(labels);
    NamesTail(labels);
    PiecesOfSeam(labels[0].name, DottedName(labels[1..]));
    if |labels| > 1 {
      PiecesOfJoin(labels[1..]);
    } else {
      assert Names(labels[1..]) == [];
    }
  }
}
