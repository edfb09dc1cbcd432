/** Facts about the scanners on text laid out piece by piece: a plain
    name is read whole, and `RxAttr` reads `[n op "v" i]` into its name,
    comparator, quoted operand and modifier. */
module ScanFacts {
  import opened Chars
  import opened Syntax
  import opened Scan

  /** No quote, backslash or line break: nothing to unescape. */
  predicate Plain(s: string)
  {
    forall c :: c in s ==> !IsQuote(c) && c != '\\' && !IsLineTerminator(c)
  }

  /** A name of `[\w-]` characters only, with no escapes. */
  predicate PlainName(w: string)
  {
    w != "" && forall k :: 0 <= k < |w| ==> IsNameChar(w[k])
  }

  /** Text that cannot continue a name. */
  predicate NameStop(rest: string)
  {
    rest == "" || (!IsNameChar(rest[0]) && rest[0] != '\\')
  }

  /** A run of name characters ending where no name character or escape
      follows is read whole. */
  lemma {:induction false} NameEndPlain(r: string, i: nat, j: nat)
    requires i <= j <= |r|
    requires forall k :: i <= k < j ==> IsNameChar(r[k])
    requires j == |r| || (!IsNameChar(r[j]) && r[j] != '\\')
    ensures NameEnd(r, i) == j
    decreases j - i
  {
    if i < j {
      NameEndPlain(r, i + 1, j);
    }
  }

  /** The comparator as written in an attribute clause. */
  function CmpText(cmp: Comparator): string
  {
    match cmp
    case Equals => "="
    case Prefix => "^="
    case Suffix => "$="
    case Substring => "*="
    case DashMatch => "|="
    case Word => "~="
  }

  /** The body of a quoted string without quotes or backslashes runs to
      the next quote. */
  lemma {:induction false} QuoteBodyPlain(r: string, i: nat, j: nat)
    requires i <= j < |r| && IsQuote(r[j])
    requires forall k :: i <= k < j ==> !IsQuote(r[k]) && r[k] != '\\'
    ensures QuoteBodyEnd(r, i) == j
    decreases j - i
  {
    if i < j {
      QuoteBodyPlain(r, i + 1, j);
    }
  }

  /** `[n op "v" i]` written out. */
  function QuotedClause(n: string, cmp: Comparator, v: string): string
  {
    "[" + n + CmpText(cmp) + "\"" + v + "\"" + " i]"
  }

  /** `RxAttr` on `[n op "v" i]`: the name, the comparator, the quoted
      operand and the ` i` modifier. */
  lemma ScanAttrQuoted(n: string, cmp: Comparator, v: string, rest: string)
    requires PlainName(n) && cmp != Word && Plain(v)
    ensures ScanAttr(QuotedClause(n, cmp, v) + rest)
            == Some(AttrSegment(n, Some(AttrValue(cmp, "\"" + v + "\"", Some(" i"))), |QuotedClause(n, cmp, v)|))
  {
    QuotedClauseLayout(n, cmp, v);
    ScanAttrLaidOut(QuotedClause(n, cmp, v), rest, n, cmp, v);
  }

  /** `ScanAttrQuoted` for any text laid out as `[n op "v" i]`. */
  lemma ScanAttrLaidOut(head: string, rest: string, n: string, cmp: Comparator, v: string)
    requires PlainName(n) && cmp != Word && Plain(v)
    requires var e := 1 + |n|;
             var p := e + |CmpText(cmp)|;
             var qe := p + |v| + 2;
             |head| == qe + 3
             && head[0] == '[' && head[1..e] == n
             && head[e] == CmpText(cmp)[0] && (|CmpText(cmp)| == 2 ==> head[e + 1] == '=')
             && head[p..qe] == "\"" + v + "\""
             && head[qe..qe + 2] == " i" && head[qe + 2] == ']'
    ensures ScanAttr(head + rest) == Some(AttrSegment(n, Some(AttrValue(cmp, "\"" + v + "\"", Some(" i"))), |head|))
  {
    var r := head + rest;
    var e := 1 + |n|;
    var p := e + |CmpText(cmp)|;
    var qe := p + |v| + 2;
    PrefixSlice(head, rest, 1, e);
    PrefixSlice(head, rest, p, qe);
    PrefixSlice(head, rest, qe, qe + 2);
    assert r[0] == head[0] && r[e] == head[e] && r[e + 1] == head[e + 1] && r[qe + 2] == head[qe + 2];
    ScanAttrAt(r, n, cmp, v, e, p, qe);
  }

  /** A slice inside the first part of a concatenation. */
  lemma PrefixSlice(head: string, rest: string, i: nat, j: nat)
    requires i <= j <= |head|
    ensures (head + rest)[i..j] == head[i..j]
  {
  }

  /** Where the pieces of `[n op "v" i]` sit. */
  lemma QuotedClauseLayout(n: string, cmp: Comparator, v: string)
    requires cmp != Word
    ensures var head := QuotedClause(n, cmp, v);
            var e := 1 + |n|;
            var p := e + |CmpText(cmp)|;
            var qe := p + |v| + 2;
            |head| == qe + 3
            && head[0] == '[' && head[1..e] == n
            && head[e] == CmpText(cmp)[0] && (|CmpText(cmp)| == 2 ==> head[e + 1] == '=')
            && head[p..qe] == "\"" + v + "\""
            && head[qe..qe + 2] == " i" && head[qe + 2] == ']'
  {
    var c := CmpText(cmp);
    var q := "\"" + v + "\"";
    var a1 := "[" + n;
    var a2 := a1 + c;
    var a3 := a2 + "\"";
    var a4 := a3 + v;
    var a5 := a4 + "\"";
    var head := a5 + " i]";
    var e := 1 + |n|;
    var p := e + |c|;
    var qe := p + |q|;
    assert forall k :: 0 <= k < |a5| ==> head[k] == a5[k];
    assert forall k :: 0 <= k < |a4| ==> a5[k] == a4[k];
    assert forall k :: 0 <= k < |a3| ==> a4[k] == a3[k];
    assert forall k :: 0 <= k < |a2| ==> a3[k] == a2[k];
    assert forall k :: 0 <= k < |a1| ==> a2[k] == a1[k];
    assert forall k :: 1 <= k < e ==> a1[k] == n[k - 1];
    assert a2[e] == c[0] && (|c| == 2 ==> a2[e + 1] == '=');
    assert forall k :: p + 1 <= k < qe - 1 ==> a4[k] == v[k - p - 1];
    assert a3[p] == '"' && a5[qe - 1] == '"';
    assert head[qe] == ' ' && head[qe + 1] == 'i' && head[qe + 2] == ']';
    assert head[1..e] == n;
    assert head[p..qe] == q;
    assert head[qe..qe + 2] == " i";
  }

  /** `ScanAttrQuoted` on the text laid out index by index. */
  lemma ScanAttrAt(r: string, n: string, cmp: Comparator, v: string, e: nat, p: nat, qe: nat)
    requires PlainName(n) && cmp != Word && Plain(v)
    requires e == 1 + |n| && p == e + |CmpText(cmp)| && qe == p + |v| + 2 && qe + 2 < |r|
    requires r[0] == '[' && r[1..e] == n
    requires r[e] == CmpText(cmp)[0] && (|CmpText(cmp)| == 2 ==> r[e + 1] == '=')
    requires r[p..qe] == "\"" + v + "\""
    requires r[qe..qe + 2] == " i" && r[qe + 2] == ']'
    ensures ScanAttr(r) == Some(AttrSegment(n, Some(AttrValue(cmp, "\"" + v + "\"", Some(" i"))), qe + 3))
  {
    assert forall k :: 1 <= k < e ==> r[k] == r[1..e][k - 1];
    NameEndPlain(r, 1, e);
    QuotedAt(r, p, qe, v);
    ModifierAt(r, qe);
    CmpAt(r, e, cmp);
    assert r[e] != ']';
    assert OperandEnd(r, p) == Some(qe);
    assert ModifierEnd(r, qe) == qe + 2;
    ScanAttrPieces(r, n, cmp, "\"" + v + "\"", e, p, qe);
  }

  /** `RxAttr` read from its pieces: name, comparator, operand, modifier. */
  lemma ScanAttrPieces(r: string, n: string, cmp: Comparator, q: string, e: nat, p: nat, qe: nat)
    requires r != "" && r[0] == '['
    requires 1 <= e < p <= qe && qe + 2 < |r|
    requires NameEnd(r, 1) == e && r[1..e] == n && r[e] != ']'
    requires AttrEq(r, e) == p - 1 && AttrCmp(r, e, p - 1) == cmp
    requires OperandEnd(r, p) == Some(qe) && r[p..qe] == q
    requires ModifierEnd(r, qe) == qe + 2 && r[qe + 2] == ']' && r[qe..qe + 2] == " i"
    ensures ScanAttr(r) == Some(AttrSegment(n, Some(AttrValue(cmp, q, Some(" i"))), qe + 3))
  {
    AttrTestAt(r, cmp, q, e, p, qe);
    ScanAttrFrom(r, n, AttrValue(cmp, q, Some(" i")), e, qe + 3);
  }

  /** `RxAttr` read from its pieces: the name, then the test. */
  lemma ScanAttrFrom(r: string, n: string, t: AttrValue, e: nat, end: nat)
    requires r != "" && r[0] == '['
    requires 1 <= e < |r| && NameEnd(r, 1) == e && r[1..e] == n && r[e] != ']'
    requires AttrTest(r, e) == Some((t, end))
    ensures ScanAttr(r) == Some(AttrSegment(n, Some(t), end))
  {
  }

  /** The test part read from its pieces. */
  lemma AttrTestAt(r: string, cmp: Comparator, q: string, e: nat, p: nat, qe: nat)
    requires 1 <= e < p <= qe && qe + 2 < |r|
    requires AttrEq(r, e) == p - 1 && AttrCmp(r, e, p - 1) == cmp
    requires OperandEnd(r, p) == Some(qe) && r[p..qe] == q
    requires ModifierEnd(r, qe) == qe + 2 && r[qe + 2] == ']' && r[qe..qe + 2] == " i"
    ensures AttrTest(r, e) == Some((AttrValue(cmp, q, Some(" i")), qe + 3))
  {
  }

  /** The comparator characters at `e` are read as `cmp`, and its `=` is
      the last of them. */
  lemma CmpAt(r: string, e: nat, cmp: Comparator)
    requires cmp != Word && e + |CmpText(cmp)| < |r|
    requires r[e] == CmpText(cmp)[0] && (|CmpText(cmp)| == 2 ==> r[e + 1] == '=')
    ensures AttrEq(r, e) == e + |CmpText(cmp)| - 1
    ensures AttrCmp(r, e, e + |CmpText(cmp)| - 1) == cmp
  {
  }

  /** A closed quoted plain string at `p` ends at `qe`. */
  lemma QuotedAt(r: string, p: nat, qe: nat, v: string)
    requires Plain(v) && p + |v| + 2 == qe <= |r|
    requires r[p..qe] == "\"" + v + "\""
    ensures IsQuote(r[p]) && QuotedEnd(r, p) == Some(qe)
  {
    var q := r[p..qe];
    assert r[p] == q[0] && r[qe - 1] == q[|q| - 1];
    assert forall k :: p + 1 <= k < qe - 1 ==> r[k] == q[k - p] == v[k - p - 1] && v[k - p - 1] in v;
    QuoteBodyPlain(r, p + 1, qe - 1);
  }

  /** ` i]` at `qe`: the white space and the `i` before the bracket. */
  lemma ModifierAt(r: string, qe: nat)
    requires qe + 2 < |r| && r[qe..qe + 2] == " i" && r[qe + 2] == ']'
    ensures SpaceEnd(r, qe) == qe + 1 && r[qe + 1] == 'i' && r[qe + 2] == ']'
  {
    assert r[qe] == ' ' && r[qe + 1] == 'i';
  }

  /** `[a^=]` reads as attribute `a`, prefix test, empty bare operand and
      no modifier, over all five characters. */
  lemma EmptyBorderScan()
    ensures ScanAttr("[a^=]") == Some(AttrSegment("a", Some(AttrValue(Prefix, "", None)), 5))
  {
    var r := "[a^=]";
    assert NameEnd(r, 1) == 2 && r[1..2] == "a";
    assert WordEnd(r, 4) == 4 && r[4..4] == "";
    assert SpaceEnd(r, 4) == 4;
    assert LineBreak("", 0) == 0;
  }

  /** `:w(v)`, with `w` a run of word characters and no parenthesis in
      `v`, reads as the pseudo-class `w` with the argument `v`, over the
      whole text. */
  lemma ScanPseudoCall(w: string, v: string)
    requires forall k :: 0 <= k < |w| ==> IsNameChar(w[k])
    requires forall k :: 0 <= k < |v| ==> v[k] != '(' && v[k] != ')'
    ensures ScanPseudo(":" + w + "(" + v + ")") == PseudoSegment(w, v, |w| + |v| + 3)
  {
    var r := ":" + w + "(" + v + ")";
    var n := 1 + |w|;
    assert forall k :: 1 <= k < n ==> r[k] == w[k - 1];
    assert forall k :: n + 1 <= k < n + 1 + |v| ==> r[k] == v[k - n - 1];
    assert r[n] == '(' && r[n + 1 + |v|] == ')';
    assert WordEnd(r, 1) == n;
    assert SpaceEnd(r, n) == n;
    assert PlainEnd(r, n + 1) == n + 1 + |v|;
    assert r[1..n] == w && r[n + 1..n + 1 + |v|] == v;
  }

  /** The text of `:nth-child(x)` and of the message its parse fails
      with, spelled out. */
  lemma NthChildWordText()
    ensures ":" + NameOf(NthChild) + "(" + "x" + ")" == ":nth-child(x)"
    ensures "invalid nth value: " + "x" + " selector: " + ":nth-child(x)"
            == "invalid nth value: x selector: :nth-child(x)"
  {
  }
}
