/** `selectorParse` and the clause parsers it dispatches to, as functions.
    The host profile is fixed at "no native engine": no pseudo-class is
    natively supported, so every attribute, pseudo-class, `$` and leading
    combinator clears a selector's full native support. */
module Parse {
  import opened Chars
  import opened Syntax
  import opened Scan

  /** Whether the host offers a working `getElementsByClassName`. */
  const ClassLookup := true

  /** What a parse function throws: a message string (turned into a
      `SyntaxError` by `selectorParse`) or an error object from below. */
  datatype Thrown = Message(text: string) | Raised(error: ParseError)

  /** How a parse step ends: with a value and the text still to parse, with
      a dead selector (`throw false`) and the text left at that point, or
      with a thrown value. */
  datatype Step<T> = Done(value: T, rest: string) | Dead(rest: string) | Fail(thrown: Thrown)

  const NewSelector := Selector([], true, true, None, None)

  // ---- clause parsers (`parseFuncs`) ---------------------------------------

  /** `#id`. A second id in one part makes the selector dead. */
  function IdClause(r: string, part: Part, sel: Selector): (o: Step<(Part, Selector)>)
    requires r != "" && r[0] == '#'
    ensures o.Done? ==> |o.rest| < |r|
    ensures o.Dead? <==> part.id.Some?
    ensures o.Dead? ==> o.rest == r
    ensures o.Fail? <==> part.id.None? && NameEnd(r, 1) == 1
    ensures o.Fail? ==> o.thrown == Message("invalid id")
    ensures o.Done? ==> o.value.0.id.Some? && o.value.1 == sel.(idPart := Some(|sel.parts|))
    ensures o.Done? ==> var n := NameEnd(r, 1);
                        o.rest == r[n..]
                        && o.value.0 == part.(id := Some(Unescape(r[1..n])), lookupCount := part.lookupCount + 1)
  {
    if part.id.Some? then Dead(r)
    else
      var n := NameEnd(r, 1);
      if n == 1 then Fail(Message("invalid id"))
      else
        Done((part.(id := Some(Unescape(r[1..n])), lookupCount := part.lookupCount + 1),
              sel.(idPart := Some(|sel.parts|))), r[n..])
  }

  /** `.class`. */
  function ClassClause(r: string, part: Part, sel: Selector): (o: Step<(Part, Selector)>)
    requires r != "" && r[0] == '.'
    ensures o.Done? ==> |o.rest| < |r| && o.value.1 == sel
    ensures o.Done? ==> |o.value.0.classes| == |part.classes| + 1
                        && o.value.0.classes[..|part.classes|] == part.classes
    ensures o.Fail? <==> NameEnd(r, 1) == 1
    ensures o.Fail? ==> o.thrown == Message("invalid class")
    ensures o.Done? ==> var n := NameEnd(r, 1);
                        o.rest == r[n..]
                        && o.value.0 == part.(classes := part.classes + [Unescape(r[1..n])])
    ensures !o.Dead?
  {
    var n := NameEnd(r, 1);
    if n == 1 then Fail(Message("invalid class"))
    else Done((part.(classes := part.classes + [Unescape(r[1..n])]), sel), r[n..])
  }

  /** `RxBorderMod.test(mod)` on what `RxAttr` captures: the pattern for the
      `^=`, `*=` and `$=` comparators is applied to the `i` modifier, where an
      absent modifier reads "undefined". Only the first character is tested;
      the pattern's other line starts cannot occur in a captured `\s*i`. */
  predicate BorderMod(modifier: Option<string>)
  {
    var text := if modifier.Some? then modifier.value else "undefined";
    text != "" && text[0] in "^*$"
  }

  /** What `\s*i` captures never starts with `^`, `*` or `$`, and neither
      does "undefined": the border check never fires. */
  lemma NoBorderMod(modifier: Option<string>)
    requires modifier.Some? ==> IsModifier(modifier.value)
    ensures !BorderMod(modifier)
  {
    if modifier.Some? {
      var m := modifier.value;
      assert IsSpace(m[0]) || m[0] == 'i';
    }
  }

  /** `RxIsQuote.test(v)`: some line of `v[i..]` starts and ends with a quote. */
  predicate QuotedFrom(v: string, i: nat)
    requires i <= |v|
    decreases |v| - i
  {
    var e := LineBreak(v, i);
    (e - i >= 2 && IsQuote(v[i]) && IsQuote(v[e - 1])) || (e < |v| && QuotedFrom(v, e + 1))
  }

  /** The operand of an attribute test: unescaped only when quoted. */
  function Operand(value: string): string
  {
    if QuotedFrom(value, 0) then Unescape(value) else value
  }

  /** The tests already listed for attribute `name` (`[]` for a new name). */
  function Listed(part: Part, name: string): seq<AttrMatcher>
  {
    if name in part.attrs then part.attrs[name] else []
  }

  /** `[name]`, `[name=value]`, `[name^=value i]` and the like. */
  function AttrClause(r: string, part: Part, sel: Selector): (o: Step<(Part, Selector)>)
    requires r != "" && r[0] == '['
    ensures o.Fail? <==> ScanAttr(r).None?
    ensures o.Fail? ==> o.thrown == Raised(TypeError)
    ensures !o.Dead?
    ensures o.Done? ==> |o.rest| < |r| && !o.value.1.fullSupport && o.value.1.parts == sel.parts
    ensures o.Done? ==> var seg := ScanAttr(r).value;
                        var name := Unescape(seg.name);
                        o.rest == r[seg.length..]
                        && o.value.0.attrs.Keys == part.attrs.Keys + {name}
                        && (seg.test.None? ==> o.value.0.attrs == part.attrs[name := Listed(part, name)])
                        && (seg.test.Some? ==>
                              var t := seg.test.value;
                              o.value.0.attrs
                              == part.attrs[name := Listed(part, name) + [AttrMatcher(t.cmp, Operand(t.value), t.modifier.Some?)]])
    ensures o.Done? ==> var seg := ScanAttr(r).value;
                        var byName := seg.test.Some? && Unescape(seg.name) == "name"
                                      && seg.test.value.modifier.None? && seg.test.value.cmp == Equals;
                        o.value.0.(attrs := part.attrs)
                        == if byName
                           then part.(searchName := Some(Operand(seg.test.value.value)), lookupCount := part.lookupCount + 1)
                           else part.(preferNative := true)
  {
    match ScanAttr(r)
    case None => Fail(Raised(TypeError))
    case Some(seg) =>
      var name := Unescape(seg.name);
      var rest := r[seg.length..];
      var sel' := sel.(fullSupport := false);
      var listed := Listed(part, name);
      match seg.test
      case None =>
        Done((part.(attrs := part.attrs[name := listed], preferNative := true), sel'), rest)
      case Some(t) =>
        NoBorderMod(t.modifier);
        if t.value == "" && BorderMod(t.modifier) then Dead(rest)
        else
          var operand := Operand(t.value);
          var part' :=
            if name == "name" && t.modifier.None? && t.cmp == Equals
            then part.(searchName := Some(operand), lookupCount := part.lookupCount + 1)
            else part.(preferNative := true);
          var matcher := AttrMatcher(t.cmp, operand, t.modifier.Some?);
          Done((part'.(attrs := part.attrs[name := listed + [matcher]]), sel'), rest)
  }

  /** No entry of `entries` before index `k` is for pseudo-class `p`. */
  predicate NoneBefore(entries: seq<PseudoEntry>, p: PseudoName, k: nat)
    requires k <= |entries|
  {
    forall j :: 0 <= j < k ==> entries[j].name != p
  }

  /** The index of the entry for pseudo-class `p`, or `|entries|` when it
      has none. */
  function EntryIndex(entries: seq<PseudoEntry>, p: PseudoName): (k: nat)
    ensures k <= |entries| && NoneBefore(entries, p, k)
    ensures k < |entries| ==> entries[k].name == p
  {
    if entries == [] then 0
    else if entries[0].name == p then 0
    else 1 + EntryIndex(entries[1..], p)
  }

  /** Appends one use of pseudo-class `p` to the part's entries, grouped by
      name in order of first use. */
  function AddPseudo(entries: seq<PseudoEntry>, p: PseudoName, arg: PseudoArg): (r: seq<PseudoEntry>)
    ensures |r| == |entries| || |r| == |entries| + 1
    ensures exists k :: 0 <= k < |r| && r[k].name == p && |r[k].args| > 0 && r[k].args[|r[k].args| - 1] == arg
    ensures NoneBefore(entries, p, |entries|) ==> r == entries + [PseudoEntry(p, [arg])]
    ensures forall k :: 0 <= k < |entries| && entries[k].name == p && NoneBefore(entries, p, k)
              ==> r == entries[k := entries[k].(args := entries[k].args + [arg])]
  {
    var k := EntryIndex(entries, p);
    if k == |entries| then
      var r := entries + [PseudoEntry(p, [arg])];
      assert r[k].args[|r[k].args| - 1] == arg;
      r
    else
      var r := entries[k := entries[k].(args := entries[k].args + [arg])];
      assert r[k].args[|r[k].args| - 1] == arg;
      r
  }

  // ---- the parser ----------------------------------------------------------

  /** `psParse`: parses the argument of `:not` and `:matches`. */
  function SelectorListArg(value: string): (o: Result<PseudoArg, ParseError>)
    ensures o.Ok? ==> o.value.Nested? && 1 <= o.value.tier <= 5
    ensures o.Ok? <==> ParseSpec(value).Ok?
    ensures o.Ok? ==> o.value == Nested(Tier(ParseSpec(value).value), ParseSpec(value).value)
    ensures o.Err? ==> o.error == ParseSpec(value).error
    decreases |value|, 6
  {
    match ParseSpec(value)
    case Err(e) => Err(e)
    case Ok(c) => Ok(Nested(Tier(c), c))
  }

  /** The pre-parser of pseudo-class `p` applied to its argument text:
      the text itself, an `an+b` formula, or a nested selector list. */
  function PreParse(p: PseudoName, value: string): (o: Result<PseudoArg, Thrown>)
    ensures o.Ok? && PreOf(p) == PlainText ==> o.value == Text(value)
    ensures o.Ok? && PreOf(p) == SelectorList ==> o.value.Nested?
    ensures o.Err? ==> PreOf(p) != PlainText
    ensures PreOf(p) == Formula ==>
              (NthParse(value).Ok? ==> o == Ok(NthParse(value).value))
              && (NthParse(value).Err? ==> o == Err(Message(NthParse(value).error)))
    ensures PreOf(p) == SelectorList ==>
              (SelectorListArg(value).Ok? ==> o == Ok(SelectorListArg(value).value))
              && (SelectorListArg(value).Err? ==> o == Err(Raised(SelectorListArg(value).error)))
    decreases |value|, 7
  {
    match PreOf(p)
    case PlainText => Ok(Text(value))
    case Formula =>
      (match NthParse(value)
       case Ok(a) => Ok(a)
       case Err(m) => Err(Message(m)))
    case SelectorList =>
      (match SelectorListArg(value)
       case Ok(a) => Ok(a)
       case Err(e) => Err(Raised(e)))
  }

  /** `:name` or `:name(value)`. */
  function PseudoClause(r: string, part: Part, sel: Selector): (o: Step<(Part, Selector)>)
    requires r != "" && r[0] == ':'
    ensures o.Done? ==> |o.rest| < |r| && !o.value.1.fullSupport && o.value.0.pseudos != []
    ensures o.Done? ==> o.value.1.parts == sel.parts
    ensures !o.Dead?
    ensures o.Fail? <==> Lookup(ScanPseudo(r).name).None?
                         || PreParse(Lookup(ScanPseudo(r).name).value, ScanPseudo(r).value).Err?
    ensures Lookup(ScanPseudo(r).name).None? ==> o == Fail(Raised(TypeError))
    ensures Lookup(ScanPseudo(r).name).Some? && PreParse(Lookup(ScanPseudo(r).name).value, ScanPseudo(r).value).Err?
            ==> o == Fail(PreParse(Lookup(ScanPseudo(r).name).value, ScanPseudo(r).value).error)
    ensures o.Done? ==> var seg := ScanPseudo(r);
                        var p := Lookup(seg.name).value;
                        o.rest == r[seg.length..]
                        && o.value.0 == part.(pseudos := AddPseudo(part.pseudos, p, PreParse(p, seg.value).value))
                        && o.value.1.getter == (if HasGetter(p) then Some(p) else sel.getter)
    decreases |r|, 0
  {
    var seg := ScanPseudo(r);
    var rest := r[seg.length..];
    match Lookup(seg.name)
    case None => Fail(Raised(TypeError))
    case Some(p) =>
      match PreParse(p, seg.value)
      case Err(e) => Fail(e)
      case Ok(a) =>
        var sel' := sel.(fullSupport := false, getter := if HasGetter(p) then Some(p) else sel.getter);
        Done((part.(pseudos := AddPseudo(part.pseudos, p, a)), sel'), rest)
  }

  /** The clause loop of one part: runs the clause parser named by the next
      character for as long as there is one. */
  function Clauses(r: string, part: Part, sel: Selector): (o: Step<(Part, Selector)>)
    ensures o.Done? ==> |o.rest| <= |r|
    ensures o.Dead? ==> |o.rest| <= |r|
    ensures o.Done? ==> o.rest == "" || o.rest[0] !in "#.[:"
    ensures o.Done? ==> o.value.1.parts == sel.parts
    decreases |r|, 1
  {
    if r == "" || r[0] !in "#.[:" then Done((part, sel), r)
    else
      var c :=
        if r[0] == '#' then IdClause(r, part, sel)
        else if r[0] == '.' then ClassClause(r, part, sel)
        else if r[0] == '[' then AttrClause(r, part, sel)
        else PseudoClause(r, part, sel);
      match c
      case Done((part', sel'), r') => Clauses(r', part', sel')
      case Dead(r') => Dead(r')
      case Fail(e) => Fail(e)
  }

  /** The start of a part: combinator, optional `$` and tag name. */
  datatype Head = Head(part: Part, sel: Selector, isTarget: bool, rest: string)

  /** The text after the combinator: whether it starts with `$`, and the
      text after that `$`. */
  function TargetMark(r: string): (res: (bool, string))
    ensures |res.1| <= |r| - ScanRelation(r).1
    ensures res.0 ==> |res.1| < |r| - ScanRelation(r).1
  {
    var r1 := r[ScanRelation(r).1..];
    if r1 != "" && r1[0] == '$' then (true, r1[1..]) else (false, r1)
  }

  /** The tag name at the start of `r2`, upper-cased as read. */
  function TagText(r2: string): string
  {
    Upper(r2[..ScanTagName(r2)])
  }

  function PartHead(r: string, sel: Selector): (h: Head)
    ensures |h.rest| <= |r| && (h.isTarget ==> |h.rest| < |r|)
    ensures h.sel.parts == sel.parts
    ensures h.part.relation != Descendant && sel.parts == [] ==> !h.sel.fullSupport
    ensures h.part.relation == ScanRelation(r).0
    ensures h.isTarget == TargetMark(r).0
    ensures var r2 := TargetMark(r).1;
            h.rest == r2[ScanTagName(r2)..]
            && h.part.tagName == (if TagText(r2) != "" && TagText(r2) != "*" then Unescape(TagText(r2)) else "*")
            && h.part.lookupCount == (if TagText(r2) != "" && TagText(r2) != "*" then 1 else 0)
    ensures h.part == EmptyPart.(relation := h.part.relation, tagName := h.part.tagName, lookupCount := h.part.lookupCount)
  {
    var rel := ScanRelation(r).0;
    var sel1 := if rel != Descendant && sel.parts == [] then sel.(fullSupport := false) else sel;
    var (isTarget, r2) := TargetMark(r);
    var tag := TagText(r2);
    var part := if tag != "" && tag != "*"
                then EmptyPart.(relation := rel, tagName := Unescape(tag), lookupCount := 1)
                else EmptyPart.(relation := rel);
    Head(part, sel1, isTarget, r2[ScanTagName(r2)..])
  }

  /** The end of a `$` part: the first selector of what follows, up to the
      next comma, is what the part's element must contain. */
  function TargetStep(r: string, part: Part, sel: Selector): (o: Step<(Part, Selector)>)
    ensures o.Done? ==> |o.rest| <= |r| && (o.rest == "" || o.rest[0] == ',')
    ensures o.Done? ==> o.value.1 == sel.(fullSupport := false)
    ensures !o.Dead?
    ensures o.Fail? <==> ParseSpec(SkipOne(r).0).Err?
    ensures o.Fail? ==> o.thrown == Raised(ParseSpec(SkipOne(r).0).error)
    ensures o.Done? ==> var c := ParseSpec(SkipOne(r).0).value;
                        o.rest == r[SkipOne(r).1..]
                        && o.value.0 == part.(contains := if c == [] then None else Some(c[0]))
    decreases |r| + 1, 0
  {
    var (group, n) := SkipOne(r);
    match ParseSpec(group)
    case Err(e) => Fail(Raised(e))
    case Ok(c) => Done((part.(contains := if c == [] then None else Some(c[0])), sel.(fullSupport := false)), r[n..])
  }

  /** One part: head, clauses and, for a `$` part, its target. Returns the
      part and the selector state, which does not yet list the part. */
  function PartSpec(r: string, sel: Selector): (o: Step<(Part, Selector)>)
    ensures o.Done? ==> |o.rest| < |r| && o.value.1.parts == sel.parts
    ensures o.Dead? ==> |o.rest| <= |r|
    decreases |r|, 2
  {
    var h := PartHead(r, sel);
    match Clauses(h.rest, h.part, h.sel)
    case Dead(x) => Dead(x)
    case Fail(e) => Fail(e)
    case Done((part4, sel4), r4) =>
      var t := if h.isTarget then TargetStep(r4, part4, sel4) else Done((part4, sel4), r4);
      match t
      case Dead(x) => Dead(x)
      case Fail(e) => Fail(e)
      case Done((part5, sel5), r5) =>
        if |r5| == |r| then Fail(Message("couldn't parse"))
        else Done((WithClassLookup(part5), sel5), r5)
  }

  /** Classes give a direct lookup where the host has one, and otherwise
      make the native engine preferable. */
  function WithClassLookup(part: Part): Part
  {
    if part.classes == [] then part
    else if ClassLookup then part.(lookupCount := part.lookupCount + 1)
    else part.(preferNative := true)
  }

  /** The parts of one selector, up to the end of the text or a comma. */
  function PartsSpec(r: string, sel: Selector): (o: Step<Selector>)
    ensures o.Done? ==> |o.rest| < |r| && |o.value.parts| > |sel.parts|
    ensures o.Done? ==> o.rest == "" || AtComma(o.rest)
    ensures o.Dead? ==> |o.rest| <= |r|
    decreases |r|, 3
  {
    match PartSpec(r, sel)
    case Dead(x) => Dead(x)
    case Fail(e) => Fail(e)
    case Done((part, sel'), r') =>
      var sel'' := sel'.(parts := sel'.parts + [part]);
      if r' != "" && !AtComma(r') then PartsSpec(r', sel'') else Done(sel'', r')
  }

  /** Whether the native engine should be preferred for a finished selector:
      not for a lone part with fewer than two direct lookups and no reason
      to prefer native, nor for a selector with a getter. */
  function Finish(sel: Selector): Selector
  {
    var lone := |sel.parts| == 1 && !sel.parts[0].preferNative && sel.parts[0].lookupCount < 2;
    sel.(useNative := !(lone || sel.getter.Some?))
  }

  /** The selector loop over the comma-separated branches of `src`, from
      the remaining text `r` on, after the selectors `acc`. */
  function Branches(r: string, acc: Collection, src: string): (o: Result<Collection, ParseError>)
    decreases |r|, 4
  {
    if r == "" then Ok(acc)
    else
      match PartsSpec(r, NewSelector)
      case Fail(Message(m)) => Err(SyntaxError(m + " selector: " + src))
      case Fail(Raised(e)) => Err(e)
      case Dead(x) =>
        var skipped := x[SkipOne(x).1..];
        assert x != "" ==> |DropComma(skipped)| < |x|;
        Branches(DropComma(skipped), acc, src)
      case Done(sel, r') => Branches(DropComma(r'), acc + [Finish(sel)], src)
  }

  /** `selectorParse` on a string, without the cache. */
  function ParseSpec(s: string): Result<Collection, ParseError>
    decreases |s|, 5
  {
    Branches(s, [], s)
  }

  // ---- psParse's support tier ----------------------------------------------

  /** Some part uses `:not` or `:matches`. */
  predicate Dangerous(sel: Selector)
  {
    exists j, k :: 0 <= j < |sel.parts| && 0 <= k < |sel.parts[j].pseudos|
      && sel.parts[j].pseudos[k].name in {Not, Matches}
  }

  /** `psParse`'s loop from selector `i` on with tier `sn` so far. */
  function TierFrom(c: Collection, i: nat, sn: int): (r: int)
    requires i <= |c| && 1 <= sn <= 5
    ensures sn <= r <= 5
    decreases |c| - i
  {
    if i < |c| && sn < 5 then
      var sel := c[i];
      var sn1 := if |sel.parts| > 1 && sn < 3 then 3 else sn;
      var sn2 := if !sel.fullSupport then 5 else sn1;
      var sn3 := if sn2 < 4 && Dangerous(sel) then 4 else sn2;
      TierFrom(c, i + 1, sn3)
    else sn
  }

  /** The support tier `psParse` assigns to a nested collection. */
  function Tier(c: Collection): (r: int)
    ensures 1 <= r <= 5
  {
    TierFrom(c, 0, if |c| > 1 then 2 else 1)
  }
}
