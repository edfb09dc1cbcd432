/** What the argument pre-parsers and the selector parser promise:
    `nthParse` reads "odd", "even" and every `an+b` it is given back
    (section 6.6.5.2 of Selectors Level 3) but not the `n` and `-n+b`
    forms; `unescapeUse` undoes escaping; `psParse`'s tier is a maximum;
    and the parser's outcomes on a few telling inputs. */
module ParseFacts {
  import opened Chars
  import opened Syntax
  import opened Scan
  import opened Parse
  import opened ScanFacts
  import Match

  // ---- nthParse ------------------------------------------------------------

  function DigitChar(d: nat): (c: char)
    requires d < 10
    ensures IsDigit(c) && c as int - '0' as int == d
  {
    ('0' as int + d) as char
  }

  /** The decimal digits of `n`, without leading zeros. */
  function NatText(n: nat): (s: string)
    ensures s != [] && forall c :: c in s ==> IsDigit(c)
    decreases n
  {
    if n < 10 then [DigitChar(n)] else NatText(n / 10) + [DigitChar(n % 10)]
  }

  /** The digits read back give the number. */
  lemma {:induction false} NatTextValue(n: nat)
    ensures DigitsValue(NatText(n)) == n
    decreases n
  {
    var s := NatText(n);
    if n < 10 {
      assert s[..|s| - 1] == [];
    } else {
      NatTextValue(n / 10);
      assert s[..|s| - 1] == NatText(n / 10);
    }
  }

  /** `an+b` written out, with the sign of `b` always present. */
  function NthText(a: nat, b: int): string
  {
    NatText(a) + "n" + (if b < 0 then "-" else "+") + NatText(if b < 0 then -b else b)
  }

  /** `b` written out as a signed integer. */
  function OffsetText(b: int): string
  {
    (if b < 0 then "-" else "") + NatText(if b < 0 then -b else b)
  }

  /** Text without letters, or with lower-case letters only, is its own
      lower-case form. */
  lemma LowerUnchanged(s: string)
    requires forall c :: c in s ==> !('A' <= c <= 'Z')
    ensures Lower(s) == s
  {
    assert forall i :: 0 <= i < |s| ==> s[i] in s;
  }

  /** A string of digits, `n`, `+` and `-` holds no line break. */
  lemma OneLine(w: string)
    requires forall c :: c in w ==> IsDigit(c) || c in "n+-"
    ensures LineBreak(w, 0) == |w|
  {
    assert forall k :: 0 <= k < |w| ==> w[k] in w;
  }

  /** The offset text after the step is read as the offset. */
  lemma OffsetRead(rest: string, b: int)
    requires rest == (if b < 0 then "-" else "+") + NatText(if b < 0 then -b else b)
    ensures var m := DigitEnd(rest, 1);
            1 < m == |rest| && DigitsValue(rest[1..]) == (if b < 0 then -b else b)
  {
    var digits := NatText(if b < 0 then -b else b);
    assert rest[1..] == digits;
    assert forall k :: 1 <= k < |rest| ==> rest[k] == digits[k - 1] && digits[k - 1] in digits;
    NatTextValue(if b < 0 then -b else b);
  }

  /** The line reader takes the digits before `n` as the step and the
      signed number after it as the offset. */
  lemma NthLineFormula(a: nat, b: int)
    ensures NthLine(NthText(a, b)) == Some((a, b))
  {
    var w := NthText(a, b);
    var step := NatText(a);
    var rest := (if b < 0 then "-" else "+") + NatText(if b < 0 then -b else b);
    assert w == step + "n" + rest;
    var k := DigitEnd(w, 0);
    assert k == |step| by {
      assert forall i :: 0 <= i < |step| ==> w[i] == step[i] && step[i] in step;
      assert w[|step|] == 'n';
    }
    assert w[..k] == step;
    NatTextValue(a);
    assert w[k + 1..] == rest;
    OffsetRead(rest, b);
  }

  /** Every `an+b` with `a >= 0`, written out, is read back. */
  lemma NthParseFormula(a: nat, b: int)
    ensures NthParse(NthText(a, b)) == Ok(Nth(a, b))
  {
    var w := NthText(a, b);
    assert forall c :: c in w ==> IsDigit(c) || c in "n+-";
    LowerUnchanged(w);
    assert w != "odd" && w != "even" by {
      assert IsDigit(w[0]);
    }
    FormulaLines(a, b);
  }

  /** A lone signed integer has no `n`, so the line reader takes it as the
      offset. */
  lemma OffsetLine(b: int)
    ensures NthLine(OffsetText(b)) == Some((0, b))
  {
    var w := OffsetText(b);
    var m: nat := if b < 0 then -b else b;
    var digits := NatText(m);
    var j := if b < 0 then 1 else 0;
    assert w[j..] == digits;
    DigitsToEnd(w, j, digits);
    assert DigitEnd(w, 0) == if b < 0 then 0 else |w|;
    NatTextValue(m);
  }

  /** Digits running to the end of the text are all read. */
  lemma DigitsToEnd(w: string, j: nat, digits: string)
    requires j <= |w| && w[j..] == digits
    requires forall c :: c in digits ==> IsDigit(c)
    ensures DigitEnd(w, j) == |w|
  {
    assert forall i :: j <= i < |w| ==> w[i] == digits[i - j] && digits[i - j] in digits;
  }

  /** A lone signed integer is an offset with step 0. */
  lemma NthParseOffset(b: int)
    ensures NthParse(OffsetText(b)) == Ok(Nth(0, b))
  {
    var w := OffsetText(b);
    assert forall c :: c in w ==> IsDigit(c) || c in "n+-";
    LowerUnchanged(w);
    assert w != "odd" && w != "even" by {
      assert w[0] == '-' || IsDigit(w[0]);
    }
    OneLine(w);
    assert w[0..|w|] == w;
    OffsetLine(b);
    assert NthLines(w, 0) == Some((0, b));
  }

  /** The texts "odd" and "even" are replaced with. */
  lemma OddEvenTexts()
    ensures NthText(2, 1) == "2n+1" && NthText(2, 0) == "2n+0"
  {
    assert NatText(2) == "2" && NatText(1) == "1" && NatText(0) == "0";
  }

  /** A formula is one line, read by `NthLine`. */
  lemma FormulaLines(a: nat, b: int)
    ensures NthLines(NthText(a, b), 0) == Some((a, b))
  {
    var w := NthText(a, b);
    assert forall c :: c in w ==> IsDigit(c) || c in "n+-";
    OneLine(w);
    assert w[0..|w|] == w;
    NthLineFormula(a, b);
  }

  /** "odd" and "even", in any case, stand for `2n+1` and `2n+0`. */
  lemma NthParseOddEven(value: string)
    ensures Lower(value) == "odd" ==> NthParse(value) == Ok(Nth(2, 1))
    ensures Lower(value) == "even" ==> NthParse(value) == Ok(Nth(2, 0))
  {
    OddEvenTexts();
    FormulaLines(2, 1);
    FormulaLines(2, 0);
  }

  /** Only the lower-case form of the text matters. */
  lemma NthParseIgnoresCase(value: string)
    ensures NthParse(value) == NthParse(Lower(value))
  {
    var v := Lower(value);
    LowerIdempotent(value);
    assert Lower(v) == v;
  }

  /** The CSS forms `n` and `-n+3` have no digits in front of `n` and are
      refused. */
  lemma NthParseRefusesBareN()
    ensures NthParse("n").Err?
    ensures NthParse("-n+3").Err?
  {
    assert Lower("n") == "n";
    assert LineBreak("n", 0) == 1;
    assert "n"[0..1] == "n";
    assert DigitEnd("n", 0) == 0;
    assert Lower("-n+3") == "-n+3";
    assert LineBreak("-n+3", 0) == 4;
    assert "-n+3"[0..4] == "-n+3";
    assert DigitEnd("-n+3", 0) == 0;
    assert DigitEnd("-n+3", 1) == 1;
  }

  /** A one-line value made of digits, `n`, `+` and `-` parses as the
      formula its line reads. */
  lemma NthParseLine(w: string)
    requires forall c :: c in w ==> IsDigit(c) || c in "n+-"
    requires w != "odd" && w != "even" && NthLine(w).Some?
    ensures NthParse(w) == Ok(Nth(NthLine(w).value.0, NthLine(w).value.1))
  {
    LowerUnchanged(w);
    OneLine(w);
    assert w[0..|w|] == w;
  }

  /** `<digits>n` with no offset: the offset is 0. */
  lemma NthParseStepOnly(a: nat)
    ensures NthParse(NatText(a) + "n") == Ok(Nth(a, 0))
  {
    var w := NatText(a) + "n";
    assert forall c :: c in w ==> IsDigit(c) || c in "n+-";
    assert w != "odd" && w != "even" by {
      assert IsDigit(w[0]);
    }
    StepOnlyLine(a);
    NthParseLine(w);
  }

  lemma StepOnlyLine(a: nat)
    ensures NthLine(NatText(a) + "n") == Some((a as int, 0))
  {
    var step := NatText(a);
    var w := step + "n";
    assert DigitEnd(w, 0) == |step| by {
      assert forall i :: 0 <= i < |step| ==> w[i] == step[i] && step[i] in step;
      assert w[|step|] == 'n';
    }
    assert w[..|step|] == step && w[|step| + 1..] == "";
    NatTextValue(a);
  }

  /** `+b` with no step: the step is 0. */
  lemma NthParsePlusOffset(b: nat)
    ensures NthParse("+" + NatText(b)) == Ok(Nth(0, b))
  {
    var digits := NatText(b);
    var w := "+" + digits;
    assert forall c :: c in w ==> IsDigit(c) || c in "n+-";
    assert w != "odd" && w != "even";
    assert DigitEnd(w, 0) == 0;
    assert w[1..] == digits;
    DigitsToEnd(w, 1, digits);
    NatTextValue(b);
    assert NthLine(w) == Some((0, b as int));
    NthParseLine(w);
  }

  /** The characters an `an+b` line is made of. */
  predicate NthChar(c: char)
  {
    IsDigit(c) || c == 'n' || c == '+' || c == '-'
  }

  /** A line `RxNthV` accepts holds only digits, `n`, `+` and `-`. */
  lemma NthLineChars(w: string)
    ensures NthLine(w).Some? ==> forall i :: 0 <= i < |w| ==> NthChar(w[i])
  {
    var k := DigitEnd(w, 0);
    var hasStep := 0 < k < |w| && w[k] == 'n';
    var rest := if hasStep then w[k + 1..] else w;
    if NthLine(w).Some? {
      if rest != "" {
        var j := if rest[0] == '+' || rest[0] == '-' then 1 else 0;
        var m := DigitEnd(rest, j);
        assert j < m == |rest|;
        assert forall i :: 0 <= i < |rest| ==> NthChar(rest[i]);
      }
      forall i | 0 <= i < |w|
        ensures NthChar(w[i])
      {
        if hasStep && i > k {
          assert w[i] == rest[i - k - 1];
        } else if !hasStep {
          assert w[i] == rest[i];
        }
      }
    }
  }

  /** A line with a character other than a digit, `n`, `+` or `-` is
      refused. */
  lemma OneLineRefused(w: string, k: nat)
    requires forall i :: 0 <= i < |w| ==> !IsLineTerminator(w[i])
    requires k < |w| && !NthChar(w[k])
    ensures NthLines(w, 0).None?
  {
    assert LineBreak(w, 0) == |w|;
    assert w[0..|w|] == w;
    NthLineChars(w);
  }

  /** One-line text with a character other than a digit, `n`, `+` or `-`
      (after lower-casing, and other than "odd" and "even") is refused with
      the message `nthParse` throws. */
  lemma NthParseRefusesOther(value: string, k: nat)
    requires forall c :: c in value ==> !IsLineTerminator(c)
    requires Lower(value) != "odd" && Lower(value) != "even"
    requires k < |value| && !NthChar(Lower(value)[k])
    ensures NthParse(value) == Err("invalid nth value: " + Lower(value))
  {
    var w := Lower(value);
    LowerOneLine(value);
    OneLineRefused(w, k);
    assert NthLines(w, 0).None?;
  }

  /** Lower-casing adds no line break. */
  lemma LowerOneLine(value: string)
    requires forall c :: c in value ==> !IsLineTerminator(c)
    ensures forall i :: 0 <= i < |Lower(value)| ==> !IsLineTerminator(Lower(value)[i])
  {
    assert forall i :: 0 <= i < |value| ==> value[i] in value;
  }

  /** A formula pseudo-class whose argument `nthParse` refuses fails the
      parse with `SyntaxError("invalid nth value: ... selector: ...")`. */
  lemma NthArgumentFails(r: string)
    requires r != "" && r[0] == ':'
    requires Lookup(ScanPseudo(r).name).Some? && PreOf(Lookup(ScanPseudo(r).name).value) == Formula
    requires NthParse(ScanPseudo(r).value).Err?
    ensures ParseSpec(r) == Err(SyntaxError(NthParse(ScanPseudo(r).value).error + " selector: " + r))
  {
    var seg := ScanPseudo(r);
    var p := Lookup(seg.name).value;
    var m := NthParse(seg.value).error;
    assert PreParse(p, seg.value) == Err(Message(m));
    assert PseudoClause(r, EmptyPart, NewSelector) == Fail(Message(m));
    PseudoClauseFails(r, EmptyPart, NewSelector, Message(m));
    FirstClauseFails(r, Message(m));
  }

  /** `:p(v)` for a formula pseudo-class `p` whose argument `nthParse`
      refuses fails the parse, naming the selector. */
  lemma FormulaArgumentFails(p: PseudoName, v: string)
    requires PreOf(p) == Formula
    requires forall k :: 0 <= k < |v| ==> v[k] != '(' && v[k] != ')'
    requires NthParse(v).Err?
    ensures var r := ":" + NameOf(p) + "(" + v + ")";
            ParseSpec(r) == Err(SyntaxError(NthParse(v).error + " selector: " + r))
  {
    FormulaNamesAreWords(p);
    ScanPseudoCall(NameOf(p), v);
    LookupNameOf(p);
    NthArgumentFails(":" + NameOf(p) + "(" + v + ")");
  }

  /** The formula pseudo-classes are named in word characters only. */
  lemma FormulaNamesAreWords(p: PseudoName)
    requires PreOf(p) == Formula
    ensures forall k :: 0 <= k < |NameOf(p)| ==> IsNameChar(NameOf(p)[k])
  {
  }

  /** `:nth-child(x)`: `x` is no formula, so the parse fails with the
      message `nthParse` throws, followed by the selector. */
  lemma NthChildWordFails()
    ensures ParseSpec(":nth-child(x)")
            == Err(SyntaxError("invalid nth value: x selector: :nth-child(x)"))
  {
    assert Lower("x") == "x";
    NthParseRefusesOther("x", 0);
    FormulaArgumentFails(NthChild, "x");
    NthChildWordText();
  }

  /** A pseudo-class clause that throws ends the clause loop. */
  lemma PseudoClauseFails(r: string, part: Part, sel: Selector, e: Thrown)
    requires r != "" && r[0] == ':' && PseudoClause(r, part, sel) == Fail(e)
    ensures Clauses(r, part, sel) == Fail(e)
  {
    assert r[0] != '#' && r[0] != '.' && r[0] != '[' && r[0] in "#.[:";
  }

  // ---- unescapeUse ---------------------------------------------------------

  /** Every character written as an escape `\c`. */
  function Escape(s: string): (e: string)
    ensures |e| == 2 * |s|
    ensures forall k :: 0 <= k < |s| ==> e[2 * k] == '\\' && e[2 * k + 1] == s[k]
  {
    if s == "" then "" else Escape(s[..|s| - 1]) + ['\\', s[|s| - 1]]
  }

  lemma {:induction false} UnescapeEscapeFrom(s: string, k: nat)
    requires forall c :: c in s ==> !IsLineTerminator(c)
    requires k <= |s|
    ensures UnescapeFrom(Escape(s), 2 * k) == s[k..]
    decreases |s| - k
  {
    var e := Escape(s);
    if k < |s| {
      assert s[k] in s;
      assert e[2 * k] == '\\' && e[2 * k + 1] == s[k];
      assert !IsQuote(e[2 * k]) && EscapeAt(e, 2 * k);
      assert UnescapeFrom(e, 2 * k) == [s[k]] + UnescapeFrom(e, 2 * k + 2);
      UnescapeEscapeFrom(s, k + 1);
      assert 2 * (k + 1) == 2 * k + 2;
      assert s[k..] == [s[k]] + s[k + 1..];
    }
  }

  /** Unescaping undoes escaping, for text without line breaks. */
  lemma UnescapeEscape(s: string)
    requires forall c :: c in s ==> !IsLineTerminator(c)
    ensures Unescape(Escape(s)) == s
  {
    UnescapeEscapeFrom(s, 0);
  }

  lemma {:induction false} UnescapePlainFrom(s: string, i: nat)
    requires i <= |s|
    requires forall k :: i <= k < |s| ==> !IsQuote(s[k]) && s[k] != '\\'
    ensures UnescapeFrom(s, i) == s[i..]
    decreases |s| - i
  {
    if i < |s| {
      UnescapePlainFrom(s, i + 1);
      assert s[i..] == [s[i]] + s[i + 1..];
    }
  }

  /** Plain text is left alone, and the quotes around it are dropped. */
  lemma UnescapeQuoted(s: string)
    requires Plain(s)
    ensures Unescape(s) == s
    ensures Unescape("\"" + s + "\"") == s
  {
    assert forall k :: 0 <= k < |s| ==> s[k] in s;
    assert forall k :: 0 <= k < |s| ==> !IsQuote(s[k]) && s[k] != '\\';
    UnescapePlainFrom(s, 0);
    var q := "\"" + s + "\"";
    assert forall k :: 1 <= k < |q| - 1 ==> q[k] == s[k - 1];
    UnescapeQuotedFrom(q, 1);
    assert q[1..|q| - 1] == s;
  }

  lemma {:induction false} UnescapeQuotedFrom(q: string, i: nat)
    requires 1 <= i <= |q| - 1 && q[|q| - 1] == '"'
    requires forall k :: 1 <= k < |q| - 1 ==> !IsQuote(q[k]) && q[k] != '\\' && !IsLineTerminator(q[k])
    ensures UnescapeFrom(q, i) == q[i..|q| - 1]
    decreases |q| - i
  {
    if i < |q| - 1 {
      UnescapeQuotedFrom(q, i + 1);
      assert q[i..|q| - 1] == [q[i]] + q[i + 1..|q| - 1];
    } else {
      assert LineEnd(q, i + 1);
      assert UnescapeFrom(q, i + 1) == "";
    }
  }

  // ---- psParse's support tier ------------------------------------------------

  /** The tier one selector calls for on its own: 5 without full native
      support, 4 with `:not` or `:matches`, 3 with more than one part. */
  function Need(sel: Selector): (n: int)
    ensures n in {1, 3, 4, 5}
  {
    if !sel.fullSupport then 5
    else if Dangerous(sel) then 4
    else if |sel.parts| > 1 then 3
    else 1
  }

  function Max(x: int, y: int): int
  {
    if x < y then y else x
  }

  /** The loop keeps the largest need seen so far; stopping at 5 loses
      nothing. */
  lemma {:induction false} TierFromIsMax(c: Collection, i: nat, sn: int)
    requires i <= |c| && 1 <= sn <= 5
    ensures forall j :: i <= j < |c| ==> Need(c[j]) <= TierFrom(c, i, sn)
    ensures TierFrom(c, i, sn) == sn || exists j :: i <= j < |c| && TierFrom(c, i, sn) == Need(c[j])
    decreases |c| - i
  {
    if i < |c| && sn < 5 {
      var sel := c[i];
      var sn3 := Max(sn, Need(sel));
      assert TierFrom(c, i, sn) == TierFrom(c, i + 1, sn3);
      TierFromIsMax(c, i + 1, sn3);
    }
  }

  /** `psParse`'s tier is the largest of 2 for a list of several selectors
      (1 for one) and of what each selector calls for. */
  lemma TierIsMax(c: Collection)
    ensures forall j :: 0 <= j < |c| ==> Need(c[j]) <= Tier(c)
    ensures |c| > 1 ==> Tier(c) >= 2
    ensures Tier(c) == (if |c| > 1 then 2 else 1) || exists j :: 0 <= j < |c| && Tier(c) == Need(c[j])
  {
    TierFromIsMax(c, 0, if |c| > 1 then 2 else 1);
  }

  // ---- what the parser produces ----------------------------------------------

  /** A part with a pseudo-class never leaves its selector with full native
      support. */
  predicate Honest(sel: Selector)
  {
    forall j :: 0 <= j < |sel.parts| && sel.parts[j].pseudos != [] ==> !sel.fullSupport
  }

  /** What every parsed selector is: at least one part, and honest about
      its support. */
  predicate WellFormed(sel: Selector)
  {
    |sel.parts| > 0 && Honest(sel)
  }

  /** The clause loop clears full support when it adds a pseudo-class, and
      never sets it back. */
  lemma {:induction false} ClausesHonest(r: string, part: Part, sel: Selector)
    requires part.pseudos != [] ==> !sel.fullSupport
    ensures var o := Clauses(r, part, sel);
            o.Done? ==> (o.value.0.pseudos != [] ==> !o.value.1.fullSupport)
                        && (!sel.fullSupport ==> !o.value.1.fullSupport)
    decreases |r|
  {
    if r != "" && r[0] in "#.[:" {
      var c :=
        if r[0] == '#' then IdClause(r, part, sel)
        else if r[0] == '.' then ClassClause(r, part, sel)
        else if r[0] == '[' then AttrClause(r, part, sel)
        else PseudoClause(r, part, sel);
      if c.Done? {
        var (part', sel') := c.value;
        assert part'.pseudos != [] ==> !sel'.fullSupport;
        assert !sel.fullSupport ==> !sel'.fullSupport;
        ClausesHonest(c.rest, part', sel');
      }
    }
  }

  /** One part keeps the selector honest. */
  lemma PartHonest(r: string, sel: Selector)
    ensures var o := PartSpec(r, sel);
            o.Done? ==> (o.value.0.pseudos != [] ==> !o.value.1.fullSupport)
                        && (!sel.fullSupport ==> !o.value.1.fullSupport)
  {
    var h := PartHead(r, sel);
    HeadHonest(r, sel);
    ClausesHonest(h.rest, h.part, h.sel);
    match Clauses(h.rest, h.part, h.sel)
    case Dead(_) =>
    case Fail(_) =>
    case Done((part4, sel4), r4) =>
      if h.isTarget {
        TargetHonest(r4, part4, sel4);
      }
  }

  /** A head starts a part with no pseudo-classes and keeps full support
      cleared. */
  lemma HeadHonest(r: string, sel: Selector)
    ensures var h := PartHead(r, sel);
            h.part.pseudos == [] && (!sel.fullSupport ==> !h.sel.fullSupport)
  {
  }

  /** A target step adds no pseudo-class and clears full support. */
  lemma TargetHonest(r: string, part: Part, sel: Selector)
    ensures var t := TargetStep(r, part, sel);
            t.Done? ==> t.value.0.pseudos == part.pseudos && !t.value.1.fullSupport
  {
  }

  /** The parts loop yields an honest selector with at least one part. */
  lemma {:induction false} PartsWellFormed(r: string, sel: Selector)
    requires Honest(sel)
    ensures PartsSpec(r, sel).Done? ==> WellFormed(PartsSpec(r, sel).value)
    decreases |r|
  {
    match PartSpec(r, sel)
    case Dead(_) =>
    case Fail(_) =>
    case Done((part, sel'), r') =>
      PartHonest(r, sel);
      var sel'' := sel'.(parts := sel'.parts + [part]);
      AppendHonest(sel, sel', part);
      if r' != "" && !AtComma(r') {
        PartsWellFormed(r', sel'');
      }
  }

  /** Appending a part keeps a selector honest when the part's own
      pseudo-classes, and the earlier ones, have cleared full support. */
  lemma AppendHonest(sel: Selector, sel': Selector, part: Part)
    requires Honest(sel) && sel'.parts == sel.parts
    requires part.pseudos != [] ==> !sel'.fullSupport
    requires !sel.fullSupport ==> !sel'.fullSupport
    ensures Honest(sel'.(parts := sel'.parts + [part]))
  {
    var sel'' := sel'.(parts := sel'.parts + [part]);
    forall j | 0 <= j < |sel''.parts| && sel''.parts[j].pseudos != []
      ensures !sel''.fullSupport
    {
      if j < |sel.parts| {
        assert sel''.parts[j] == sel.parts[j];
      }
    }
  }

  /** The selector loop only appends well-formed selectors; dead branches
      leave nothing behind, and the selectors already parsed stay in front. */
  lemma {:induction false} BranchesWellFormed(r: string, acc: Collection, src: string)
    requires forall j :: 0 <= j < |acc| ==> WellFormed(acc[j])
    ensures var o := Branches(r, acc, src);
            o.Ok? ==> acc <= o.value && forall j :: 0 <= j < |o.value| ==> WellFormed(o.value[j])
    decreases |r|
  {
    if r != "" {
      match PartsSpec(r, NewSelector)
      case Fail(_) =>
      case Dead(x) =>
        var skipped := x[SkipOne(x).1..];
        assert x != "" ==> |DropComma(skipped)| < |x|;
        BranchesWellFormed(DropComma(skipped), acc, src);
      case Done(sel, r') =>
        PartsWellFormed(r, NewSelector);
        var acc' := acc + [Finish(sel)];
        assert forall j :: 0 <= j < |acc'| ==> WellFormed(acc'[j]) by {
          assert WellFormed(Finish(sel));
          assert forall j :: 0 <= j < |acc| ==> acc'[j] == acc[j];
        }
        BranchesWellFormed(DropComma(r'), acc', src);
        assert acc <= acc';
    }
  }

  /** Every selector `selectorParse` returns has a part and is honest about
      its support. */
  lemma ParsedWellFormed(s: string)
    ensures ParseSpec(s).Ok? ==> forall j :: 0 <= j < |ParseSpec(s).value| ==> WellFormed(ParseSpec(s).value[j])
  {
    BranchesWellFormed(s, [], s);
  }

  /** Since every pseudo-class clears full support, a selector with `:not`
      or `:matches` already calls for tier 5: a parsed list is never given
      tier 4. */
  lemma ParsedTierNeverFour(s: string)
    ensures ParseSpec(s).Ok? ==> Tier(ParseSpec(s).value) != 4
  {
    if ParseSpec(s).Ok? {
      var c := ParseSpec(s).value;
      ParsedWellFormed(s);
      TierIsMax(c);
      forall j | 0 <= j < |c|
        ensures Need(c[j]) != 4
      {
        assert WellFormed(c[j]);
      }
    }
  }

  // ---- outcomes on a few inputs ------------------------------------------------

  /** Text starting with a clause character has no combinator and no tag
      name: the clauses start at once. */
  lemma ClauseFirst(r: string, sel: Selector)
    requires r != "" && r[0] in "#.[:"
    ensures PartHead(r, sel) == Head(EmptyPart, sel, false, r)
  {
    assert SpaceEnd(r, 0) == 0 && ScanRelation(r) == (Descendant, 0);
    assert r[0..] == r && TargetMark(r) == (false, r);
    assert NameEnd(r, 0) == 0 && ScanTagName(r) == 0;
    assert r[..0] == "" && TagText(r) == "";
  }

  /** A first clause that throws ends the whole parse. */
  lemma FirstClauseFails(r: string, e: Thrown)
    requires r != "" && r[0] in "#.[:"
    requires Clauses(r, EmptyPart, NewSelector) == Fail(e)
    ensures ParseSpec(r) == if e.Message? then Err(SyntaxError(e.text + " selector: " + r)) else Err(e.error)
  {
    ClauseFirst(r, NewSelector);
    assert PartSpec(r, NewSelector) == Fail(e);
    assert PartsSpec(r, NewSelector) == Fail(e);
  }

  /** An id clause without a name is a syntax error naming the selector. */
  lemma EmptyIdFails(r: string)
    requires r != "" && r[0] == '#' && NameEnd(r, 1) == 1
    ensures ParseSpec(r) == Err(SyntaxError("invalid id selector: " + r))
  {
    assert IdClause(r, EmptyPart, NewSelector) == Fail(Message("invalid id"));
    FirstClauseFails(r, Message("invalid id"));
    assert "invalid id" + " selector: " + r == "invalid id selector: " + r;
  }

  /** A pseudo-class the registry does not know is a `TypeError`. */
  lemma UnknownPseudoFails(r: string)
    requires r != "" && r[0] == ':' && Lookup(ScanPseudo(r).name).None?
    ensures ParseSpec(r) == Err(TypeError)
  {
    assert PseudoClause(r, EmptyPart, NewSelector) == Fail(Raised(TypeError));
    FirstClauseFails(r, Raised(TypeError));
  }

  /** An attribute clause outside the grammar, `~=` among them, is a
      `TypeError`. */
  lemma BadAttributeFails(r: string)
    requires r != "" && r[0] == '[' && ScanAttr(r).None?
    ensures ParseSpec(r) == Err(TypeError)
  {
    assert AttrClause(r, EmptyPart, NewSelector) == Fail(Raised(TypeError));
    FirstClauseFails(r, Raised(TypeError));
  }

  /** `[a^=]`: an empty operand after `^=`. The empty-value check looks at
      the `i` modifier rather than the comparator, so the selector is kept:
      the clause adds to attribute `a` a prefix test with the empty operand,
      which accepts every value of `a`, where Selectors Level 3 (section
      6.3.2) says it represents nothing. */
  lemma EmptyBorderKept(part: Part, sel: Selector, value: string)
    ensures ScanAttr("[a^=]") == Some(AttrSegment("a", Some(AttrValue(Prefix, "", None)), 5))
    ensures var o := AttrClause("[a^=]", part, sel);
            o.Done? && o.value.0.attrs == part.attrs["a" := Listed(part, "a") + [AttrMatcher(Prefix, "", false)]]
    ensures var ms := AttrClause("[a^=]", part, sel).value.0.attrs["a"];
            |ms| > 0 && Match.AttrHolds(ms[|ms| - 1], value)
  {
    EmptyBorderScan();
    EmptyBorderClause(part, sel);
    var ms := Listed(part, "a") + [AttrMatcher(Prefix, "", false)];
    assert AttrClause("[a^=]", part, sel).value.0.attrs["a"] == ms;
    assert ms[|ms| - 1] == AttrMatcher(Prefix, "", false);
    EmptyPrefixHolds(value);
  }

  /** What the clause `[a^=]` adds to the part. */
  lemma EmptyBorderClause(part: Part, sel: Selector)
    ensures var o := AttrClause("[a^=]", part, sel);
            o.Done? && o.value.0.attrs == part.attrs["a" := Listed(part, "a") + [AttrMatcher(Prefix, "", false)]]
  {
    EmptyBorderScan();
    UnescapeName("a");
    assert Operand("") == "";
  }

  /** A prefix test with the empty operand accepts every value. */
  lemma EmptyPrefixHolds(value: string)
    ensures Match.AttrHolds(AttrMatcher(Prefix, "", false), value)
  {
    assert Match.OccursAt("", value, 0);
  }

  // ---- what the clause parsers read ------------------------------------------

  /** A plain name has nothing to unescape. */
  lemma UnescapeName(w: string)
    requires forall k :: 0 <= k < |w| ==> IsNameChar(w[k])
    ensures Unescape(w) == w
  {
    UnescapePlainFrom(w, 0);
    assert w[0..] == w;
  }

  /** `#w` gives the part the id `w`, counts one direct lookup and makes
      the part the selector's id part. */
  lemma IdClauseReads(w: string, rest: string, part: Part, sel: Selector)
    requires PlainName(w) && NameStop(rest) && part.id.None?
    ensures IdClause("#" + w + rest, part, sel)
            == Done((part.(id := Some(w), lookupCount := part.lookupCount + 1),
                     sel.(idPart := Some(|sel.parts|))), rest)
  {
    var r := "#" + w + rest;
    assert forall k :: 1 <= k < 1 + |w| ==> r[k] == w[k - 1];
    assert r[1 + |w|..] == rest && r[1..1 + |w|] == w;
    NameEndPlain(r, 1, 1 + |w|);
    UnescapeName(w);
  }

  /** `.w` appends the class `w` to the part's classes. */
  lemma ClassClauseReads(w: string, rest: string, part: Part, sel: Selector)
    requires PlainName(w) && NameStop(rest)
    ensures ClassClause("." + w + rest, part, sel)
            == Done((part.(classes := part.classes + [w]), sel), rest)
  {
    var r := "." + w + rest;
    assert forall k :: 1 <= k < 1 + |w| ==> r[k] == w[k - 1];
    assert r[1 + |w|..] == rest && r[1..1 + |w|] == w;
    NameEndPlain(r, 1, 1 + |w|);
    UnescapeName(w);
  }

  /** A tag name `w` at the start of a part: descendant relation, the tag
      upper-cased, one direct lookup, and the clauses start after it. */
  lemma PartHeadTag(w: string, rest: string, sel: Selector)
    requires PlainName(w) && NameStop(rest)
    ensures PartHead(w + rest, sel)
            == Head(EmptyPart.(tagName := Upper(w), lookupCount := 1), sel, false, rest)
  {
    var r := w + rest;
    assert forall k :: 0 <= k < |w| ==> r[k] == w[k];
    assert r[|w|..] == rest && r[..|w|] == w;
    assert SpaceEnd(r, 0) == 0 && ScanRelation(r) == (Descendant, 0);
    assert r[0..] == r;
    assert TargetMark(r) == (false, r);
    NameEndPlain(r, 0, |w|);
    var u := Upper(w);
    assert forall k :: 0 <= k < |u| ==> IsNameChar(u[k]);
    UnescapeName(u);
    assert u[0] != '*';
    assert TagText(r) == u;
  }

  /** A quoted plain operand is unquoted. */
  lemma OperandQuoted(v: string)
    requires Plain(v)
    ensures Operand("\"" + v + "\"") == v
  {
    var q := "\"" + v + "\"";
    assert forall k :: 1 <= k < |q| - 1 ==> q[k] == v[k - 1] && v[k - 1] in v;
    assert LineBreak(q, 0) == |q|;
    assert QuotedFrom(q, 0);
    UnescapeQuoted(v);
  }

  /** `[n op "v" i]` appends exactly one test to those of attribute `n`:
      the comparator of `op`, the unquoted operand `v` and the `i` flag. */
  lemma AttrClauseReads(n: string, cmp: Comparator, v: string, rest: string, part: Part, sel: Selector)
    requires PlainName(n) && cmp != Word && Plain(v)
    ensures var o := AttrClause(QuotedClause(n, cmp, v) + rest, part, sel);
            o == Done((part.(preferNative := true,
                             attrs := part.attrs[n := Listed(part, n) + [AttrMatcher(cmp, v, true)]]),
                       sel.(fullSupport := false)), rest)
  {
    var r := QuotedClause(n, cmp, v) + rest;
    ScanAttrQuoted(n, cmp, v, rest);
    assert r[|QuotedClause(n, cmp, v)|..] == rest;
    UnescapeName(n);
    OperandQuoted(v);
  }

  /** White space with nothing after it is a part of its own: a descendant
      part with tag `*` and no clauses, so "a " has two parts. */
  lemma TrailingSpacePart(w: string, sel: Selector)
    requires w != "" && forall k :: 0 <= k < |w| ==> IsSpace(w[k])
    ensures PartSpec(w, sel) == Done((EmptyPart, sel), "")
  {
    SpaceHead(w, sel);
    assert Clauses("", EmptyPart, sel) == Done((EmptyPart, sel), "");
  }

  /** The head of a part made of white space only: a descendant part with
      tag `*` and nothing left to read. */
  lemma SpaceHead(w: string, sel: Selector)
    requires w != "" && forall k :: 0 <= k < |w| ==> IsSpace(w[k])
    ensures PartHead(w, sel) == Head(EmptyPart, sel, false, "")
  {
    assert SpaceEnd(w, 0) == |w|;
    assert ScanRelation(w) == (Descendant, |w|);
    assert w[|w|..] == "";
    assert TargetMark(w) == (false, "");
    assert TagText("") == "";
  }

  /** The selector text is only quoted in error messages: a list that
      parses reads the same whatever text it is reported under. */
  lemma {:induction false} BranchesOkIgnoresSource(r: string, acc: Collection, src: string, src': string)
    requires Branches(r, acc, src).Ok?
    ensures Branches(r, acc, src') == Branches(r, acc, src)
    decreases |r|
  {
    if r != "" {
      match PartsSpec(r, NewSelector)
      case Fail(_) =>
      case Dead(x) =>
        var next := DropComma(x[SkipOne(x).1..]);
        BranchesOkIgnoresSource(next, acc, src, src');
      case Done(sel, r') =>
        BranchesOkIgnoresSource(DropComma(r'), acc + [Finish(sel)], src, src');
    }
  }

  /** A second id in a part that has one makes the selector dead. */
  lemma SecondIdClause(r: string, part: Part, sel: Selector)
    requires r != "" && r[0] == '#' && part.id.Some?
    ensures Clauses(r, part, sel) == Dead(r)
  {
    assert IdClause(r, part, sel) == Dead(r);
  }

  /** An id followed directly by a second id stops the clause loop with a
      dead selector at the second `#`. */
  lemma IdThenIdClauses(r: string, n: nat)
    requires r != "" && r[0] == '#' && n == NameEnd(r, 1) && n > 1
    requires n < |r| && r[n] == '#'
    ensures Clauses(r, EmptyPart, NewSelector) == Dead(r[n..])
  {
    var c := IdClause(r, EmptyPart, NewSelector);
    assert c.Done? && c.rest == r[n..] && c.value.0.id.Some?;
    SecondIdClause(r[n..], c.value.0, c.value.1);
  }

  /** An id followed directly by a second id makes the first part dead,
      with the text left at the second `#`. */
  lemma SecondIdDead(r: string, n: nat)
    requires r != "" && r[0] == '#' && n == NameEnd(r, 1) && n > 1
    requires n < |r| && r[n] == '#'
    ensures PartsSpec(r, NewSelector) == Dead(r[n..])
  {
    ClauseFirst(r, NewSelector);
    IdThenIdClauses(r, n);
    assert PartSpec(r, NewSelector) == Dead(r[n..]);
  }

  /** The dead branch is skipped up to the comma and its whitespace. */
  lemma DeadBranchNext()
    ensures var x := "#y,.ok"; DropComma(x[SkipOne(x).1..]) == ".ok"
  {
    var x := "#y,.ok";
    assert SpaceEnd(x, 0) == 0 && SkipEnd(x, 0) == 2;
    var skipped := x[2..];
    assert skipped == ",.ok";
    assert SpaceEnd(skipped, 0) == 0 && SpaceEnd(skipped, 1) == 1;
  }

  /** A lone class is one part with nothing after it. */
  lemma ClassAlone(s: string)
    requires |s| > 1 && s[0] == '.' && NameEnd(s, 1) == |s|
    ensures PartsSpec(s, NewSelector).Done? && PartsSpec(s, NewSelector).rest == ""
  {
    ClauseFirst(s, NewSelector);
    var c := ClassClause(s, EmptyPart, NewSelector);
    assert c.Done? && c.rest == "";
    var (part, sel) := c.value;
    assert Clauses("", part, sel) == Done((part, sel), "");
    assert Clauses(s, EmptyPart, NewSelector) == Done((part, sel), "");
    assert PartSpec(s, NewSelector) == Done((WithClassLookup(part), sel), "");
  }

  /** The first branch of `#x#y,.ok` is dropped up to the comma. */
  lemma FirstBranchDropped()
    ensures ParseSpec("#x#y,.ok") == Branches(".ok", [], "#x#y,.ok")
  {
    var r := "#x#y,.ok";
    assert NameEnd(r, 1) == 2;
    SecondIdDead(r, 2);
    assert r[2..] == "#y,.ok";
    DeadBranchNext();
  }

  /** `.ok` parses. */
  lemma ClassListParses()
    ensures ParseSpec(".ok").Ok?
  {
    assert NameEnd(".ok", 1) == 3;
    ClassAlone(".ok");
  }

  /** `#x#y,.ok`: the second id kills the first branch, which is skipped up
      to the comma, and the list is what `.ok` alone gives. */
  lemma DeadBranchSkipped()
    ensures ParseSpec(".ok").Ok?
    ensures ParseSpec("#x#y,.ok") == ParseSpec(".ok")
  {
    FirstBranchDropped();
    ClassListParses();
    BranchesOkIgnoresSource(".ok", [], ".ok", "#x#y,.ok");
  }
}
