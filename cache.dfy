/** `selectorParse` as the source runs it: a loop over the comma-separated
    selectors, a loop over the parts of each, and a loop over the clauses of
    each part, with every finished parse stored in a string-keyed cache.
    The nested parses of `:not(...)`, `:matches(...)` and `$` targets go
    through the same cache. Each method is proved to compute what the
    functions of module `Parse` specify. */
module Cache {
  import opened Syntax
  import opened Scan
  import opened Parse

  /** A value handed to `selectorParse`: a string, or anything else. */
  datatype Input = Str(s: string) | Other

  class SelectorCache {
    /** `selectorCache`: selector text to its parsed collection. */
    var entries: map<string, Collection>

    /** Every cached collection is what its key parses to. */
    ghost predicate Valid()
      reads this
    {
      forall k :: k in entries ==> ParseSpec(k) == Ok(entries[k])
    }

    constructor ()
      ensures Valid() && entries == map[]
    {
      entries := map[];
    }

    /** `selectorParse` on any input: anything but a string yields the
        empty collection and leaves the cache alone. */
    method Select(input: Input) returns (r: Result<Collection, ParseError>)
      requires Valid()
      modifies this
      ensures Valid()
      ensures input.Other? ==> r == Ok([]) && entries == old(entries)
      ensures input.Str? ==> r == ParseSpec(input.s)
      ensures old(entries).Keys <= entries.Keys
    {
      match input
      case Other => r := Ok([]);
      case Str(s) => r := Parse(s);
    }

    /** `selectorParse` on a string. A cached text is answered from the
        cache; otherwise a successful parse is cached and a failed one is
        not. */
    method Parse(s: string) returns (r: Result<Collection, ParseError>)
      requires Valid()
      modifies this
      ensures Valid()
      ensures r == ParseSpec(s)
      ensures s in old(entries) ==> entries == old(entries)
      ensures r.Ok? ==> s in entries && entries[s] == r.value
      ensures r.Err? ==> s !in entries
      ensures old(entries).Keys <= entries.Keys
      decreases |s|, 5
    {
      if s in entries {
        return Ok(entries[s]);
      }
      var text := s;
      var selectors: Collection := [];
      while text != ""
        invariant Valid() && old(entries).Keys <= entries.Keys
        invariant |text| <= |s|
        invariant Branches(text, selectors, s) == ParseSpec(s)
        decreases |text|
      {
        var o := ParseSelector(text);
        match o
        case Fail(Message(m)) =>
          return Err(SyntaxError(m + " selector: " + s));
        case Fail(Raised(e)) =>
          return Err(e);
        case Dead(x) =>
          var skipped := x[SkipOne(x).1..];
          assert x != "" ==> |DropComma(skipped)| < |x|;
          text := DropComma(skipped);
        case Done(sel, x) =>
          selectors := selectors + [Finish(sel)];
          text := DropComma(x);
      }
      entries := entries[s := selectors];
      return Ok(selectors);
    }

    /** The `do ... while` over the parts of one selector, from the text
        `r` up to the next comma. */
    method ParseSelector(r: string) returns (o: Step<Selector>)
      requires Valid()
      modifies this
      ensures Valid() && old(entries).Keys <= entries.Keys
      ensures o == PartsSpec(r, NewSelector)
      decreases |r|, 3
    {
      var text := r;
      var sel := NewSelector;
      while true
        invariant Valid() && old(entries).Keys <= entries.Keys
        invariant |text| <= |r|
        invariant PartsSpec(text, sel) == PartsSpec(r, NewSelector)
        decreases |text|
      {
        var p := ParsePart(text, sel);
        match p
        case Dead(x) => return Dead(x);
        case Fail(e) => return Fail(e);
        case Done((part, sel'), x) =>
          sel := sel'.(parts := sel'.parts + [part]);
          if x == "" || AtComma(x) {
            return Done(sel, x);
          }
          text := x;
      }
    }

    /** One part: head, the clause loop, and the target of a `$` part. */
    method ParsePart(r: string, sel0: Selector) returns (o: Step<(Part, Selector)>)
      requires Valid()
      modifies this
      ensures Valid() && old(entries).Keys <= entries.Keys
      ensures o == PartSpec(r, sel0)
      decreases |r|, 2
    {
      var h := PartHead(r, sel0);
      var c := ParseClauses(h.rest, h.part, h.sel);
      if !c.Done? {
        return if c.Dead? then Dead(c.rest) else Fail(c.thrown);
      }
      if h.isTarget {
        c := ParseTarget(c.rest, c.value.0, c.value.1);
        if !c.Done? {
          return c;
        }
      }
      if |c.rest| == |r| {
        return Fail(Message("couldn't parse"));
      }
      return Done((WithClassLookup(c.value.0), c.value.1), c.rest);
    }

    /** The clause loop: while the next character names a clause parser,
        run it on the part. */
    method ParseClauses(r: string, part0: Part, sel0: Selector) returns (o: Step<(Part, Selector)>)
      requires Valid()
      modifies this
      ensures Valid() && old(entries).Keys <= entries.Keys
      ensures o == Clauses(r, part0, sel0)
      decreases |r|, 1
    {
      var part, sel, text := part0, sel0, r;
      while text != "" && text[0] in "#.[:"
        invariant Valid() && old(entries).Keys <= entries.Keys
        invariant |text| <= |r|
        invariant Clauses(text, part, sel) == Clauses(r, part0, sel0)
        decreases |text|
      {
        var c;
        if text[0] == '#' {
          c := IdClause(text, part, sel);
        } else if text[0] == '.' {
          c := ClassClause(text, part, sel);
        } else if text[0] == '[' {
          c := AttrClause(text, part, sel);
        } else {
          c := ParsePseudo(text, part, sel);
        }
        if !c.Done? {
          return if c.Dead? then Dead(c.rest) else Fail(c.thrown);
        }
        part, sel, text := c.value.0, c.value.1, c.rest;
      }
      return Done((part, sel), text);
    }

    /** The target of a `$` part: the first selector of the text up to the
        next comma, parsed through the cache. */
    method ParseTarget(r: string, part: Part, sel: Selector) returns (o: Step<(Part, Selector)>)
      requires Valid()
      modifies this
      ensures Valid() && old(entries).Keys <= entries.Keys
      ensures o == TargetStep(r, part, sel)
      decreases |r| + 1, 0
    {
      var (group, n) := SkipOne(r);
      var c := Parse(group);
      if c.Err? {
        return Fail(Raised(c.error));
      }
      var coll := c.value;
      return Done((part.(contains := if coll == [] then None else Some(coll[0])), sel.(fullSupport := false)), r[n..]);
    }

    /** The `:` clause parser. */
    method ParsePseudo(r: string, part: Part, sel: Selector) returns (o: Step<(Part, Selector)>)
      requires r != "" && r[0] == ':'
      requires Valid()
      modifies this
      ensures Valid() && old(entries).Keys <= entries.Keys
      ensures o == PseudoClause(r, part, sel)
      decreases |r|, 0
    {
      var seg := ScanPseudo(r);
      var found := Lookup(seg.name);
      if found.None? {
        return Fail(Raised(TypeError));
      }
      var p := found.value;
      var arg := PreParseArg(p, seg.value);
      if arg.Err? {
        return Fail(arg.error);
      }
      var sel' := sel.(fullSupport := false, getter := if HasGetter(p) then Some(p) else sel.getter);
      return Done((part.(pseudos := AddPseudo(part.pseudos, p, arg.value)), sel'), r[seg.length..]);
    }

    /** The pre-parser of a pseudo-class; `psParse` parses its selector
        list through the cache. */
    method PreParseArg(p: PseudoName, value: string) returns (o: Result<PseudoArg, Thrown>)
      requires Valid()
      modifies this
      ensures Valid() && old(entries).Keys <= entries.Keys
      ensures o == PreParse(p, value)
      decreases |value|, 7
    {
      match PreOf(p)
      case PlainText =>
        o := Ok(Text(value));
      case Formula =>
        var a := NthParse(value);
        o := if a.Ok? then Ok(a.value) else Err(Message(a.error));
      case SelectorList =>
        var c := Parse(value);
        o := if c.Ok? then Ok(Nested(Tier(c.value), c.value)) else Err(Raised(c.error));
    }
  }
}
