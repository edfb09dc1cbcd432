/** The regular expressions of the selector parser, written as scanners.
    Each scanner reads the remaining selector text from its start and
    returns how far the expression's match reaches (a backtracking engine
    takes the greedy path here, because no later item of any of these
    expressions can succeed after a shorter choice). Also the two string
    helpers of the pseudo-class pre-parsers: `unescapeUse` and `nthParse`. */
module Scan {
  import opened Chars
  import opened Syntax

  /** End of the `\s*` run starting at `i`. */
  function SpaceEnd(r: string, i: nat): (j: nat)
    requires i <= |r|
    ensures i <= j <= |r|
    ensures forall k :: i <= k < j ==> IsSpace(r[k])
    ensures j == |r| || !IsSpace(r[j])
    decreases |r| - i
  {
    if i < |r| && IsSpace(r[i]) then SpaceEnd(r, i + 1) else i
  }

  /** End of the `[\w-]*` run starting at `i`. */
  function WordEnd(r: string, i: nat): (j: nat)
    requires i <= |r|
    ensures i <= j <= |r|
    ensures forall k :: i <= k < j ==> IsNameChar(r[k])
    ensures j == |r| || !IsNameChar(r[j])
    decreases |r| - i
  {
    if i < |r| && IsNameChar(r[i]) then WordEnd(r, i + 1) else i
  }

  /** End of the `\d*` run starting at `i`. */
  function DigitEnd(r: string, i: nat): (j: nat)
    requires i <= |r|
    ensures i <= j <= |r|
    ensures forall k :: i <= k < j ==> IsDigit(r[k])
    ensures j == |r| || !IsDigit(r[j])
    decreases |r| - i
  {
    if i < |r| && IsDigit(r[i]) then DigitEnd(r, i + 1) else i
  }

  /** `\\.` can start at `i`: a backslash followed by a character other
      than a line terminator. */
  predicate EscapeAt(r: string, i: nat)
  {
    i + 1 < |r| && r[i] == '\\' && !IsLineTerminator(r[i + 1])
  }

  /** All of `s` is matched by `([\w-]|\\.)*`. */
  predicate IsNameText(s: string)
    decreases |s|
  {
    s == ""
    || (IsNameChar(s[0]) && IsNameText(s[1..]))
    || (EscapeAt(s, 0) && IsNameText(s[2..]))
  }

  /** End of the `([\w-]|\\.)*` run starting at `i`. */
  function NameEnd(r: string, i: nat): (j: nat)
    requires i <= |r|
    ensures i <= j <= |r|
    ensures IsNameText(r[i..j])
    ensures j == |r| || (!IsNameChar(r[j]) && !EscapeAt(r, j))
    decreases |r| - i
  {
    if i < |r| && IsNameChar(r[i]) then
      var j := NameEnd(r, i + 1);
      assert r[i..j][1..] == r[i + 1..j];
      j
    else if EscapeAt(r, i) then
      var j := NameEnd(r, i + 2);
      assert r[i..j][2..] == r[i + 2..j];
      j
    else i
  }

  /** End of the body `([^\\'"]|\\.)*` of a quoted string starting at `i`. */
  function QuoteBodyEnd(r: string, i: nat): (j: nat)
    requires i <= |r|
    ensures i <= j <= |r|
    ensures j == |r| || IsQuote(r[j]) || (r[j] == '\\' && !EscapeAt(r, j))
    decreases |r| - i
  {
    if i < |r| && !IsQuote(r[i]) && r[i] != '\\' then QuoteBodyEnd(r, i + 1)
    else if EscapeAt(r, i) then QuoteBodyEnd(r, i + 2)
    else i
  }

  /** `['"]([^\\'"]|\\.)*['"]` at `i`: the end of the quoted string, if it closes. */
  function QuotedEnd(r: string, i: nat): (e: Option<nat>)
    requires i < |r| && IsQuote(r[i])
    ensures e.Some? ==> i + 2 <= e.value <= |r| && IsQuote(r[e.value - 1])
  {
    var j := QuoteBodyEnd(r, i + 1);
    if j < |r| && IsQuote(r[j]) then Some(j + 1) else None
  }

  /** End of the `[^()]*` run starting at `i`. */
  function PlainEnd(r: string, i: nat): (j: nat)
    requires i <= |r|
    ensures i <= j <= |r|
    ensures forall k :: i <= k < j ==> r[k] != '(' && r[k] != ')'
    ensures j == |r| || r[j] == '(' || r[j] == ')'
    decreases |r| - i
  {
    if i < |r| && r[i] != '(' && r[i] != ')' then PlainEnd(r, i + 1) else i
  }

  /** A parenthesised group at `i` holding at most `depth` levels of
      parentheses, as in `\(([^()]*(\([^()]*(\([^()]*\))?\))?)\)`: the end
      of the group, if it closes. */
  function ParenEnd(r: string, i: nat, depth: nat): (e: Option<nat>)
    requires i < |r| && r[i] == '('
    ensures e.Some? ==> i + 2 <= e.value <= |r| && r[e.value - 1] == ')'
    decreases depth
  {
    var j := PlainEnd(r, i + 1);
    if j < |r| && r[j] == ')' then Some(j + 1)
    else if depth > 1 && j < |r| && r[j] == '(' then
      match ParenEnd(r, j, depth - 1)
      case Some(k) => if k < |r| && r[k] == ')' then Some(k + 1) else None
      case None => None
    else None
  }

  /** `^\s*([>+~]?)\s*`: the combinator and the length of the match. */
  function ScanRelation(r: string): (res: (Relation, nat))
    ensures res.1 <= |r|
    ensures forall k :: 0 <= k < res.1 ==> IsSpace(r[k]) || r[k] in ">+~"
    ensures res.0 != Descendant ==> exists k :: 0 <= k < res.1 && r[k] in ">+~"
  {
    var i := SpaceEnd(r, 0);
    if i < |r| && r[i] == '>' then (Child, SpaceEnd(r, i + 1))
    else if i < |r| && r[i] == '+' then (Adjacent, SpaceEnd(r, i + 1))
    else if i < |r| && r[i] == '~' then (Sibling, SpaceEnd(r, i + 1))
    else (Descendant, i)
  }

  /** `^\*|^([\w-]|\\.)*`: the length of the tag name. */
  function ScanTagName(r: string): (n: nat)
    ensures n <= |r|
    ensures n > 0 && r[0] == '*' ==> n == 1
    ensures r == "" || r[0] != '*' ==> IsNameText(r[..n])
  {
    if r != "" && r[0] == '*' then 1 else NameEnd(r, 0)
  }

  /** What `^:([\w-]*)\s*(\((...)\))?` captures: the name, the text
      inside the parentheses ("" without them) and the match length. */
  datatype PseudoSegment = PseudoSegment(name: string, value: string, length: nat)

  function ScanPseudo(r: string): (seg: PseudoSegment)
    requires r != "" && r[0] == ':'
    ensures 1 <= seg.length <= |r|
    ensures forall c :: c in seg.name ==> IsNameChar(c)
    ensures 1 + |seg.name| <= |r| && r[1..1 + |seg.name|] == seg.name
  {
    var n := WordEnd(r, 1);
    var w := SpaceEnd(r, n);
    if w < |r| && r[w] == '(' then
      match ParenEnd(r, w, 3)
      case Some(e) => PseudoSegment(r[1..n], r[w + 1..e - 1], e)
      case None => PseudoSegment(r[1..n], "", w)
    else PseudoSegment(r[1..n], "", w)
  }

  /** The value part of an attribute segment: the comparator its
      character `[\^*$|]?` stands for, the raw operand (with its quotes, if
      quoted) and the `\s*i` modifier. */
  datatype AttrValue = AttrValue(cmp: Comparator, value: string, modifier: Option<string>)

  /** What `^\[(([\w-]|\\.)*)(([\^*$|]?)=(...)(\s*i)?)?\]` captures. */
  datatype AttrSegment = AttrSegment(name: string, test: Option<AttrValue>, length: nat)

  /** The text `\s*i` matches. */
  predicate IsModifier(m: string)
  {
    m != "" && m[|m| - 1] == 'i' && forall k :: 0 <= k < |m| - 1 ==> IsSpace(m[k])
  }

  /** Where the `=` of the comparator after the name ending at `n` sits,
      or -1 where there is none. */
  function AttrEq(r: string, n: nat): (eq: int)
    ensures eq >= 0 ==> (eq == n || eq == n + 1) && eq < |r|
  {
    if n + 1 < |r| && r[n] in "^*$|" && r[n + 1] == '=' then n + 1
    else if n < |r| && r[n] == '=' then n
    else -1
  }

  /** The comparator whose `=` sits at `eq`, for a name ending at `n`. */
  function AttrCmp(r: string, n: nat, eq: nat): (cmp: Comparator)
    requires eq < |r| && (eq == n || eq == n + 1)
    ensures cmp != Word
  {
    if eq == n then Equals
    else if r[n] == '^' then Prefix
    else if r[n] == '*' then Substring
    else if r[n] == '$' then Suffix
    else DashMatch
  }

  /** The end of the operand starting at `p`: a quoted string, if it
      closes, or a word. */
  function OperandEnd(r: string, p: nat): (q: Option<nat>)
    requires p <= |r|
    ensures q.Some? ==> p <= q.value <= |r|
  {
    if p < |r| && IsQuote(r[p]) then QuotedEnd(r, p) else Some(WordEnd(r, p))
  }

  /** The end of the optional `\s*i` modifier starting at `q`. */
  function ModifierEnd(r: string, q: nat): (m: nat)
    requires q <= |r|
    ensures q <= m <= |r|
    ensures m != q ==> IsModifier(r[q..m])
  {
    var k := SpaceEnd(r, q);
    if k < |r| && r[k] == 'i' then
      var m := r[q..k + 1];
      assert m[|m| - 1] == r[k];
      assert forall j :: 0 <= j < |m| - 1 ==> m[j] == r[q + j];
      k + 1
    else q
  }

  /** The test part `([\^*$|]?)=(...)(\s*i)?\]` after a name ending at
      `n`: the test and the end of the whole expression. */
  function AttrTest(r: string, n: nat): (res: Option<(AttrValue, nat)>)
    requires n <= |r|
    ensures res.Some? ==> n < res.value.1 <= |r| && r[res.value.1 - 1] == ']'
    ensures res.Some? ==> res.value.0.cmp != Word
    ensures res.Some? && res.value.0.modifier.Some? ==> IsModifier(res.value.0.modifier.value)
  {
    var eq := AttrEq(r, n);
    if eq < 0 then None
    else
      match OperandEnd(r, eq + 1)
      case None => None
      case Some(q) =>
        var modEnd := ModifierEnd(r, q);
        if modEnd < |r| && r[modEnd] == ']' then
          var modifier := if modEnd == q then None else Some(r[q..modEnd]);
          Some((AttrValue(AttrCmp(r, n, eq), r[eq + 1..q], modifier), modEnd + 1))
        else None
  }

  /** The attribute expression at the start of `r`, or `None` where it does
      not match. */
  function ScanAttr(r: string): (seg: Option<AttrSegment>)
    requires r != "" && r[0] == '['
    ensures seg.Some? ==> 2 <= seg.value.length <= |r| && r[seg.value.length - 1] == ']'
    ensures seg.Some? ==> IsNameText(seg.value.name)
    ensures seg.Some? && seg.value.test.Some? ==> seg.value.test.value.cmp != Word
    ensures seg.Some? && seg.value.test.Some? && seg.value.test.value.modifier.Some?
            ==> IsModifier(seg.value.test.value.modifier.value)
  {
    var n := NameEnd(r, 1);
    if n < |r| && r[n] == ']' then Some(AttrSegment(r[1..n], None, n + 1))
    else
      match AttrTest(r, n)
      case None => None
      case Some((t, length)) => Some(AttrSegment(r[1..n], Some(t), length))
  }

  /** End of the items `(\(...\)|['"]...['"]|\\,|[^,])*` starting at `i`. */
  function SkipEnd(r: string, i: nat): (j: nat)
    requires i <= |r|
    ensures i <= j <= |r|
    ensures j == |r| || r[j] == ','
    decreases |r| - i
  {
    if i == |r| then i
    else if r[i] == '(' && ParenEnd(r, i, 3).Some? then SkipEnd(r, ParenEnd(r, i, 3).value)
    else if IsQuote(r[i]) && QuotedEnd(r, i).Some? then SkipEnd(r, QuotedEnd(r, i).value)
    else if r[i] == '\\' && i + 1 < |r| && r[i + 1] == ',' then SkipEnd(r, i + 2)
    else if r[i] != ',' then SkipEnd(r, i + 1)
    else i
  }

  /** `RxSkipOne`: everything up to the comma that ends the current
      selector. Returns group 1 (without the leading white space) and the
      match length. */
  function SkipOne(r: string): (res: (string, nat))
    ensures res.1 <= |r|
    ensures res.1 == |r| || r[res.1] == ','
  {
    var i := SpaceEnd(r, 0);
    var j := SkipEnd(r, i);
    (r[i..j], j)
  }

  /** `RxNextOne.test`: the text starts with a comma after white space. */
  predicate AtComma(r: string)
  {
    SpaceEnd(r, 0) < |r| && r[SpaceEnd(r, 0)] == ','
  }

  /** `replace(RxNextOne, "")`: drops a leading comma and the white space
      around it; other text is left alone. */
  function DropComma(r: string): (s: string)
    ensures |s| <= |r|
    ensures AtComma(r) ==> |s| < |r|
    ensures !AtComma(r) ==> s == r
  {
    if AtComma(r) then r[SpaceEnd(r, SpaceEnd(r, 0) + 1)..] else r
  }

  // ---- unescapeUse -------------------------------------------------------

  /** `^` of a multi-line expression holds before index `i`. */
  predicate LineStart(s: string, i: nat)
    requires i <= |s|
  {
    i == 0 || IsLineTerminator(s[i - 1])
  }

  /** `$` of a multi-line expression holds at index `i`. */
  predicate LineEnd(s: string, i: nat)
    requires i <= |s|
  {
    i == |s| || IsLineTerminator(s[i])
  }

  /** `replace(/^['"]|\\(.)|['"]$/gm, "$1")` applied to `s[i..]`. */
  function UnescapeFrom(s: string, i: nat): (u: string)
    requires i <= |s|
    ensures |u| <= |s| - i
    decreases |s| - i
  {
    if i == |s| then ""
    else if IsQuote(s[i]) && LineStart(s, i) then UnescapeFrom(s, i + 1)
    else if EscapeAt(s, i) then [s[i + 1]] + UnescapeFrom(s, i + 2)
    else if IsQuote(s[i]) && LineEnd(s, i + 1) then UnescapeFrom(s, i + 1)
    else [s[i]] + UnescapeFrom(s, i + 1)
  }

  /** `unescapeUse`: drops quotes at the start and end of each line and
      replaces each escape `\c` by `c`. */
  function Unescape(s: string): string
  {
    UnescapeFrom(s, 0)
  }

  // ---- nthParse ------------------------------------------------------------

  /** The value of a run of decimal digits. */
  function DigitsValue(s: string): (n: nat)
    requires forall c :: c in s ==> IsDigit(c)
    decreases |s|
  {
    if s == [] then 0
    else
      assert s[|s| - 1] in s;
      assert IsDigit(s[|s| - 1]);
      DigitsValue(s[..|s| - 1]) * 10 + (s[|s| - 1] as int - '0' as int)
  }

  /** `^(\d+n)?([+-]?\d+)?$` against one line (no line terminator inside):
      the step and offset, missing parts read as 0. */
  function NthLine(w: string): (r: Option<(int, int)>)
    ensures r.Some? && r.value.0 != 0 ==> exists k :: 0 < k < |w| && w[k] == 'n'
  {
    var k := DigitEnd(w, 0);
    var hasStep := 0 < k < |w| && w[k] == 'n';
    var step := if hasStep then DigitsValue(w[..k]) else 0;
    var rest := if hasStep then w[k + 1..] else w;
    if rest == "" then Some((step, 0))
    else
      var j := if rest[0] == '+' || rest[0] == '-' then 1 else 0;
      var m := DigitEnd(rest, j);
      if j < m == |rest| then
        var magnitude: int := DigitsValue(rest[j..]);
        var offset: int := if rest[0] == '-' then -magnitude else magnitude;
        Some((step, offset))
      else None
  }

  /** The first line of `w[i..]` that `NthLine` accepts (the expression is
      multi-line, so `^` and `$` also match at line breaks). */
  function NthLines(w: string, i: nat): Option<(int, int)>
    requires i <= |w|
    decreases |w| - i
  {
    var e := LineBreak(w, i);
    match NthLine(w[i..e])
    case Some(v) => Some(v)
    case None => if e < |w| then NthLines(w, e + 1) else None
  }

  /** Index of the first line terminator at or after `i`, or `|w|`. */
  function LineBreak(w: string, i: nat): (e: nat)
    requires i <= |w|
    ensures i <= e <= |w|
    ensures forall k :: i <= k < e ==> !IsLineTerminator(w[k])
    ensures e == |w| || IsLineTerminator(w[e])
    decreases |w| - i
  {
    if i < |w| && !IsLineTerminator(w[i]) then LineBreak(w, i + 1) else i
  }

  /** `nthParse`: "odd" and "even" (in any case) stand for 2n+1 and 2n+0;
      otherwise the lower-cased text must be an `an+b` formula. */
  function NthParse(value: string): Result<PseudoArg, string>
  {
    var v := Lower(value);
    var w := if v == "odd" then "2n+1" else if v == "even" then "2n+0" else v;
    match NthLines(w, 0)
    case Some((a, b)) => Ok(Nth(a, b))
    case None => Err("invalid nth value: " + v)
  }
}
