# Sen selector engine in Dafny

This project models the selector engine of Sen.js: the parser that turns a
comma-separated CSS selector into a collection of selectors, the matcher
that tests an element against a collection, and the two list utilities the
engine uses to combine results.

The document is a value of type `Dom.Tree`. It is a sequence of nodes, and
each node holds a `nodeType`, a `nodeName`, an `id`, a `className`, an
attribute map, `lang`, `dir` and indices of its parent, its siblings and its
first and last child, with `-1` standing for `null`. Accessors such as
`Dom.Parent` return `Null` unless the stored index points the right way: a
parent or previous sibling must have a smaller index than the node, and a
next sibling or child a larger one. So every walk over the tree terminates. The element sibling accessors
(`previousElementSibling` and `nextElementSibling`) are the raw sibling walk
filtered to elements.

The host is fixed at "no native selector engine". No pseudo-class is
natively supported, and the host has `getElementsByClassName`
(`Parse.ClassLookup`). Under this profile every attribute, pseudo-class,
`$` target and leading combinator clears a selector's full native support.

Modules:

- `Chars` and `Scan`: character classes, ASCII case mapping, and
  hand-written scanners for the regular expressions of the parser
  (`RxRelate`, `RxName`, `RxId`, `RxClass`, `RxPseudo`, `RxAttr`,
  `RxSkipOne`, `RxNextOne`, `RxNthV`, `RxUnEscape`).
- `Syntax`: the parsed forms, namely relations, attribute matchers,
  pseudo-class names and arguments, parts, selectors and collections.
- `Parse`: `selectorParse` and `parseFuncs` as functions, including the
  dead branch (`throw false`) and fatal errors, plus `psParse`'s support tier.
- `Cache`: `selectorParse` as the source runs it, as loops over a
  `SelectorCache` object whose `entries` map is the string-keyed
  `selectorCache`. Each method is proved to return what `Parse` specifies.
- `Match`: `selectorTest`, the pseudo-class `each` predicates, `nthCheck`,
  the right-to-left walk of `selectorMatch`, and `filterSelector`, as
  functions.
- `Engine`: the loops of `nthCheck`, `selectorTest`, `selectorMatch` and
  `filterSelector`, each proved to compute its `Match` function.
- `Lists`: `filterElements` and `makeFlatAndUnique` as loops, with their
  specifications.
- `ScanFacts`: what the scanners read from clauses written out piece by
  piece (`[n op "v" i]`, `:w(v)`, a plain name).
- `ParseFacts`, `AttrFacts`, `MatchFacts`, `WalkFacts`, `PseudoFacts`:
  properties of the parser, the attribute matchers, `nthCheck`, the
  combinator walk and the structural pseudo-classes.
- `Findings`: the attribute expression that `escapeForRx` builds, as
  written and corrected.

Quirks of the source are kept as written, except where "## Left out" says
otherwise:

- The empty-value check of an attribute clause tests the ` i` modifier
  instead of the comparator, so it never fires: `Parse.AttrClause` never
  makes a selector dead.
- `[a~=b]` and an unknown pseudo-class end the parse with a `TypeError`,
  not a `SyntaxError`.
- `nthCheck` has no `n >= 0` restriction.
- The combinator walk never backtracks.
- Trailing whitespace adds a `*` part.

## Model

| member | source | states |
|---|---|---|
| Engine.NthCheck | Sen.js:214-234 | the walk from the first (or last) child counts the element siblings the filter accepts until it reaches the element; the result is `count == offset` for step 0 and "step divides count − offset" otherwise; an element without a parent gets false (the source throws, see "## Left out") |
| Engine.SelectorTest | Sen.js:1041-1092 | true exactly when the id, the upper-cased tag name, every class, every matcher of every attribute, every use of every pseudo-class and the containment target all hold |
| Engine.HasClasses | Sen.js:1046-1059 | true exactly when every class of the part is in the element's class list |
| Engine.AttrsPass | Sen.js:1061-1075 | true exactly when every named attribute is present and passes each of its matchers |
| Engine.PseudosPass | Sen.js:1076-1089 | true exactly when every use of every pseudo-class of the part holds |
| Engine.SelectorMatch | Sen.js:1103-1157 | true exactly when some selector of the collection matches the element |
| Engine.MatchSelector | Sen.js:1105-1154 | one selector's right-to-left walk: the last part is tested on the element itself, each earlier part is found through the later part's relation, and with origins one more step must land on an origin |
| Engine.Step | Sen.js:1134-1151 | one relation step: the nearest matching ancestor for the descendant combinator, the parent for `>`, the previous element sibling for `+`, and the nearest matching previous element sibling for `~`; Null where none passes, including a `>` step from a parentless element, where the source throws (see "## Left out") |
| Engine.StepToOrigin | Sen.js:1110-1125 | the extra step after part 0 reaches a node that is one of the origins |
| Engine.InOrigins | Sen.js:1123-1125 | the loop finds `x` exactly when `x` is among the origins |
| Engine.FilterSelector | Sen.js:1167-1173 | the result is the matching entries of the list, in input order |
| Match.Selecting | Sen.js:1167-1173 | an entry is kept exactly when it is in the list and the collection matches it |
| Match.SelectingAppend | Sen.js:1167-1173 | filtering distributes over concatenation, so kept entries stay in input order |
| Match.Locate | Sen.js:1134-1151 | a step lands either nowhere or on an element that passes the part |
| Match.JsRem | Sen.js:225 | JavaScript `%` truncates toward zero: the remainder carries the dividend's sign, is smaller than the divisor in magnitude, and what it leaves (`x − r`) is a multiple of the divisor |
| Lists.FilterElements | Sen.js:94-103 | the result is exactly the node-type-1 entries of the list, in order |
| Lists.ElementsAppend | Sen.js:94-103 | filtering to elements distributes over concatenation |
| Lists.MakeFlatAndUnique | Sen.js:110-127 | the result is each array's entries in order, minus those that also occur in a later array |
| Lists.FreshMembers | Sen.js:114-124 | an entry of array `i` survives exactly when no later array holds it |
| Lists.FlatUniqueMembers | Sen.js:110-127 | a value is in the result exactly when some array holds it |
| Lists.LastHolder | Sen.js:117-123 | the last array that holds a value emits it |
| Lists.FlatPrefixMembers | Sen.js:112-125 | after `n` arrays, the result holds exactly the values whose last holder among all arrays is one of the first `n` |
| Lists.FlatUniqueNoDuplicates | Sen.js:110-127 | arrays without internal duplicates combine into a result without duplicates |
| Lists.FlatPrefixNoDuplicates | Sen.js:112-125 | the same for the result after `n` arrays |
| Lists.FreshNoDuplicates | Sen.js:114-124 | an array's surviving entries have no duplicates when the array has none |
| Lists.FreshAlone | Sen.js:117-123 | an array with no later array keeps every entry, duplicates within it included |
| Lists.FlatUniqueSingle | Sen.js:110-127 | a single array comes back unchanged, duplicates included |
| Cache.SelectorCache.constructor | Sen.js:643 | the cache starts empty |
| Cache.SelectorCache.Select | Sen.js:784 | a non-string input yields the empty collection and leaves the cache alone; a string is parsed |
| Cache.SelectorCache.Parse | Sen.js:780-899 | the result is `Parse.ParseSpec` of the text; a cached text leaves the cache as it was; a successful parse is cached under its text; a failed one is not cached; no entry is ever removed, and every entry is what its key parses to |
| Cache.SelectorCache.ParseSelector | Sen.js:801-873 | the part loop of one selector returns `Parse.PartsSpec` |
| Cache.SelectorCache.ParsePart | Sen.js:808-870 | one part returns `Parse.PartSpec` |
| Cache.SelectorCache.ParseClauses | Sen.js:849-851 | the clause loop returns `Parse.Clauses` |
| Cache.SelectorCache.ParseTarget | Sen.js:856-860 | the `$` target returns `Parse.TargetStep` |
| Cache.SelectorCache.ParsePseudo | Sen.js:739-772 | the `:` clause returns `Parse.PseudoClause` |
| Cache.SelectorCache.PreParseArg | Sen.js:749 | the pre-parser returns `Parse.PreParse` |
| Parse.IdClause | Sen.js:657-668 | a second id makes the selector dead and consumes nothing; `#` without a name throws "invalid id", and only then; otherwise the part's id is the unescaped name after `#`, its lookup count grows by one, nothing else of the part changes, the selector records the part as its id part, and the text after the name is left |
| Parse.ClassClause | Sen.js:675-683 | `.` without a name throws "invalid class", and only then; otherwise exactly the unescaped name after `.` is appended to the part's classes, nothing else changes, and the text after the name is left; never dead |
| Parse.AttrClause | Sen.js:690-732 | the clause fails with a `TypeError` exactly when `RxAttr` does not match; it never makes the selector dead, because the empty-value check tests the modifier; otherwise the unescaped attribute name gets exactly one more matcher (the comparator, the operand unescaped only when quoted, the `i` flag exactly when the modifier is there), or none for `[name]`; other names keep their matchers; an unmodified `[name=v]` makes `v` the part's search name with one more lookup, and every other clause prefers the native engine; full native support is cleared and the text after `]` is left |
| Parse.PseudoClause | Sen.js:739-772 | fails exactly when the name is unknown (a `TypeError`) or the pre-parser throws (its error is passed on); otherwise the pseudo-class's use with its pre-parsed argument is recorded through `AddPseudo`, nothing else of the part changes, full native support is cleared, the selector's getter becomes the pseudo-class when it has one, and the text after the clause is left; never dead |
| Parse.AddPseudo | Sen.js:751-771 | a name used for the first time gets a new entry at the end holding just this argument; a name already present gets the argument appended to its entry, and no other entry changes |
| Parse.PreParse | Sen.js:749 | without a pre-parser the argument is its text; a formula pseudo-class gets `nthParse`'s pair or its message thrown; `:not` and `:matches` get `psParse`'s nested collection or its parse error; only a pre-parser can fail |
| Parse.SelectorListArg | Sen.js:240-261 | succeeds exactly when the argument parses; the result is the parsed collection with its tier `Tier`, between 1 and 5; a parse error is passed on |
| Parse.Clauses | Sen.js:849-851 | the loop stops at a character that names no clause parser and never adds a part |
| Parse.PartHead | Sen.js:835-845 | the part's relation is what `RxRelate` reads, a `$` after it marks the target, and the tag is the name `RxName` reads next, upper-cased and unescaped, counting one lookup, or `*` with none; no other field of the part is set; a combinator on the first part clears full native support; the text after the tag is left |
| Parse.TargetStep | Sen.js:856-860 | the part must contain the first selector of the list parsed from the text up to the next top-level comma (nothing for an empty list); a parse error there is raised again; full native support is cleared and the text from the comma on is left |
| Parse.PartSpec | Sen.js:808-870 | a finished part consumes text, since otherwise "couldn't parse" is thrown |
| Parse.PartsSpec | Sen.js:802-873 | the part loop stops at the end of the text or at a comma and adds at least one part |
| Parse.Tier | Sen.js:240-261 | the support tier lies between 1 and 5 |
| Parse.TierFrom | Sen.js:245-259 | the tier only grows from its starting value and stays at most 5 |
| ParseFacts.TierIsMax | Sen.js:240-261 | the tier is the largest of the base (2 for several selectors, else 1) and each selector's need (3 for several parts, 4 for `:not`/`:matches`, 5 without full native support) |
| ParseFacts.TierFromIsMax | Sen.js:245-259 | the loop's tier bounds every later selector's need and is either its start value or one of them |
| ParseFacts.Need | Sen.js:247-257 | a selector needs tier 1, 3, 4 or 5 |
| ParseFacts.ParsedWellFormed | Sen.js:780-899 | every selector of a parse has a part, and a selector with a pseudo-class has lost full native support |
| ParseFacts.BranchesWellFormed | Sen.js:788-896 | the branch loop keeps earlier selectors and only adds well-formed ones |
| ParseFacts.PartsWellFormed | Sen.js:802-873 | the part loop yields a well-formed selector |
| ParseFacts.ClausesHonest | Sen.js:739-772 | after the clause loop, a part with a pseudo-class belongs to a selector without full native support |
| ParseFacts.PartHonest | Sen.js:808-870 | the same for a whole part |
| ParseFacts.ParsedTierNeverFour | Sen.js:240-261 | a parsed list never gets tier 4: `:not` and `:matches` also clear full native support, so the tier goes to 5 |
| ParseFacts.NthParseFormula | Sen.js:200-205 | `an+b` is read back as `(a, b)` |
| ParseFacts.NthLineFormula | Sen.js:176 | `RxNthV` reads `an+b` as `(a, b)` |
| ParseFacts.NthParseOffset | Sen.js:200-205 | a bare signed integer `b` is read as `(0, b)` |
| ParseFacts.OffsetLine | Sen.js:176 | `RxNthV` reads a signed integer as `(0, b)` |
| ParseFacts.FormulaLines | Sen.js:176 | the `m` flag leaves a one-line formula to its first line |
| ParseFacts.NthParseOddEven | Sen.js:202 | "odd" is `(2, 1)` and "even" is `(2, 0)`, in any letter case |
| ParseFacts.NthParseIgnoresCase | Sen.js:201 | the value is lower-cased first |
| ParseFacts.NthParseRefusesBareN | Sen.js:200-205 | "n" and "-n+3" are refused |
| ParseFacts.NthParseStepOnly | Sen.js:200-205 | `<digits>n` is read as `(a, 0)` |
| ParseFacts.NthParsePlusOffset | Sen.js:200-205 | `+<digits>` is read as `(0, b)` |
| ParseFacts.NthParseRefusesOther | Sen.js:200-205 | a one-line text other than "odd" and "even" that holds a character other than a digit, `n`, `+` or `-` is refused with "invalid nth value: " and the lower-cased text |
| ParseFacts.NthLineChars | Sen.js:176 | a line `RxNthV` accepts holds only digits, `n`, `+` and `-` |
| ParseFacts.NatTextValue | Sen.js:204 | `parseInt` of a decimal numeral is its value |
| ParseFacts.OffsetRead | Sen.js:176 | the sign and digits of an offset are read back as the offset |
| ParseFacts.UnescapeEscape | Sen.js:184-186 | removing escapes undoes escaping every character of a one-line text |
| ParseFacts.UnescapeEscapeFrom | Sen.js:184-186 | the same from any escaped position |
| ParseFacts.UnescapeQuoted | Sen.js:184-186 | plain text is unchanged, and its double-quoted form loses the quotes |
| ParseFacts.UnescapePlainFrom | Sen.js:174 | text without quotes or backslashes is unchanged |
| ParseFacts.UnescapeQuotedFrom | Sen.js:174 | inside quotes, plain text is kept and the closing quote dropped |
| ParseFacts.FirstClauseFails | Sen.js:876-887 | a clause that throws on the first part makes the whole parse fail: a message becomes `SyntaxError(message + " selector: " + text)`, any other error is passed on |
| ParseFacts.ClauseFirst | Sen.js:835-845 | a text starting with a clause character has a descendant head with tag `*` and consumes nothing |
| ParseFacts.EmptyIdFails | Sen.js:663 | `#` without a name fails with "invalid id selector: " followed by the text |
| ParseFacts.UnknownPseudoFails | Sen.js:744-749 | an unknown pseudo-class fails with a `TypeError` |
| ParseFacts.BadAttributeFails | Sen.js:690-700 | an attribute clause that `RxAttr` refuses fails with a `TypeError` |
| ParseFacts.EmptyBorderKept | Sen.js:712-716 | `[a^=]` is read with an empty bare operand and no modifier, and is kept: the clause adds exactly a prefix matcher with the empty operand to the list of `a`, and that matcher accepts every value |
| ParseFacts.IdClauseReads | Sen.js:657-668 | `#w` with a plain name `w` gives the part the id `w` and one more lookup, makes it the selector's id part, and leaves the text after `w` |
| ParseFacts.ClassClauseReads | Sen.js:675-683 | `.w` with a plain name `w` appends `w` to the part's classes and leaves the text after it |
| ParseFacts.AttrClauseReads | Sen.js:690-732 | `[n op "v" i]` with plain `n` and `v` adds to `n` the case-insensitive matcher `op` with operand `v` (quotes removed), prefers the native engine and clears full native support |
| ParseFacts.OperandQuoted | Sen.js:718 | a double-quoted operand without escapes or quotes inside loses its quotes |
| ParseFacts.PartHeadTag | Sen.js:835-845 | a plain tag name `w` at the start gives a descendant part with the tag `w` upper-cased and one lookup, and no target |
| ParseFacts.UnescapeName | Sen.js:184-186 | a plain name has nothing to unescape |
| ParseFacts.NthArgumentFails | Sen.js:739-772 | a formula pseudo-class whose argument `nthParse` refuses fails the whole parse with `SyntaxError(message + " selector: " + text)` |
| ParseFacts.FormulaArgumentFails | Sen.js:739-772 | the same for the text `:p(v)` of any formula pseudo-class `p` |
| ParseFacts.NthChildWordFails | Sen.js:200-205 | `:nth-child(x)` fails with `SyntaxError("invalid nth value: x selector: :nth-child(x)")` |
| ScanFacts.ScanAttrQuoted | Sen.js:631 | `RxAttr` reads `[n op "v" i]` as the name `n`, the comparator `op`, the raw operand `"v"` and the modifier ` i`, over the whole clause |
| ScanFacts.ScanPseudoCall | Sen.js:630 | `RxPseudo` reads `:w(v)` as the name `w` with the argument `v`, over the whole text |
| ScanFacts.NameEndPlain | Sen.js:628-629 | a run of name characters followed by no name character or escape is read whole |
| Parse.NoBorderMod | Sen.js:714 | `RxBorderMod` never matches a modifier that `RxAttr` captures, nor the absent one |
| ParseFacts.TrailingSpacePart | Sen.js:835-845 | trailing whitespace parses to one more `*` part with the descendant relation |
| ParseFacts.SecondIdDead | Sen.js:659 | an id directly followed by a second id makes the part dead, with the text left at the second `#` |
| ParseFacts.BranchesOkIgnoresSource | Sen.js:876-887 | the selector text is only quoted in error messages: a list that parses reads the same under any text |
| ParseFacts.DeadBranchSkipped | Sen.js:876-887 | `#x#y,.ok` parses to exactly what `.ok` parses to: the dead first branch is skipped up to the comma |
| Scan.ScanRelation | Sen.js:626 | the relation text is whitespace and combinator characters, and a non-descendant relation has a combinator character |
| Scan.ScanTagName | Sen.js:627 | the tag is `*`, or name characters and escapes |
| Scan.ScanPseudo | Sen.js:630 | the pseudo-class name follows the colon and is made of name characters |
| Scan.ScanAttr | Sen.js:631 | an accepted clause ends at `]`, has a name of name characters and escapes, never has the `~=` comparator, and its modifier is whitespace then `i` |
| Scan.SkipOne | Sen.js:637 | the skip ends at the end of the text or at a top-level comma |
| Scan.DropComma | Sen.js:895 | a leading comma with its whitespace is removed, and nothing else is |
| Scan.NthLine | Sen.js:176 | a non-zero step comes from an `n` in the text |
| Syntax.LookupNameOf | Sen.js:543 | every known pseudo-class is found under its own name |
| Syntax.Lookup | Sen.js:543-548 | a name is found only as itself |
| Syntax.Find | Sen.js:545 | what the search finds carries the name, and it finds nothing only when no entry does |
| AttrFacts.EqualsOnOneLine | Sen.js:638 | `=` holds exactly on equal values |
| AttrFacts.PrefixOnOneLine | Sen.js:638 | `^=` holds exactly when the operand is a prefix |
| AttrFacts.SuffixOnOneLine | Sen.js:638 | `$=` holds exactly when the operand is a suffix |
| AttrFacts.SubstringOnAnyValue | Sen.js:638 | `*=` holds exactly when the operand occurs |
| AttrFacts.DashMatchOnOneLine | Sen.js:638 | `\|=` holds on the operand or on the operand followed by `-` |
| AttrFacts.AttrHoldsPlain | Sen.js:1070-1074 | on one-line values every comparator is its plain string predicate after case folding |
| AttrFacts.AttrHoldsIgnoresCase | Sen.js:728 | with the `i` flag the letter case of the value does not matter |
| AttrFacts.AnchorsAtEnds | Sen.js:728 | under the `m` flag, on a one-line value the anchors hold only at its ends |
| AttrFacts.FoldSingleLine | Sen.js:728 | case folding keeps a value on one line |
| AttrFacts.OccursAtStart | Sen.js:638 | an occurrence at 0 is a prefix |
| AttrFacts.OccursIsPrefixOfRest | Sen.js:638 | an occurrence at `i` is a prefix of the rest |
| AttrFacts.ClassListJoin | Sen.js:1047 | splitting a space-joined list of class names gives the names back |
| AttrFacts.SplitJoin | Sen.js:1047 | the same for the split that `RxSSplit` performs |
| AttrFacts.SplitWord | Sen.js:1047 | a word without whitespace stays whole |
| AttrFacts.SplitAtSpace | Sen.js:1047 | a space splits the text into the word before it and the rest |
| MatchFacts.NthHoldsIff | Sen.js:222-225 | for a non-zero step `a`, position `k` passes exactly when `k = a·n + b` for some integer `n`, negative `n` included |
| MatchFacts.NthHoldsNoStep | Sen.js:225 | with step 0 only position `b` passes |
| MatchFacts.NthHoldsOddEven | Sen.js:222-225 | `2n+1` selects odd positions and `2n+0` even ones |
| MatchFacts.NthNegativeTerm | Sen.js:222-225 | `2n+3` passes position 1, which needs `n = -1` |
| MatchFacts.NthPosition | Sen.js:214-234 | `nthCheck` holds exactly when the element has a parent and is at a position `k+1` among the counted siblings, from the first or last child, with `k+1` passing the formula |
| MatchFacts.NthChildPosition | Sen.js:313-319 | `:nth-child(an+b)` counts the element's position among its parent's element children |
| MatchFacts.NthChildOne | Sen.js:214-234 | position 1 with step 0 is the first element child |
| MatchFacts.NthWalkPosition | Sen.js:217-231 | the loop from any child on agrees with the position among the counted siblings from there |
| MatchFacts.ChainStep | Sen.js:217-231 | one loop turn counts the child or not, and the child is not counted again |
| MatchFacts.PositionStep | Sen.js:217-231 | a counted child that is not the element shifts the position by one |
| MatchFacts.ChainForward | Sen.js:215-230 | the forward chain is the child-node list |
| MatchFacts.SelectedAll | Sen.js:218 | without a filter every element is counted |
| MatchFacts.MatchCollAny | Sen.js:1104-1156 | a collection matches exactly when some selector does |
| MatchFacts.MatchFromAny | Sen.js:1104-1156 | the same for the selectors from index `i` on |
| MatchFacts.MatchCollOrigins | Sen.js:1110-1125 | origins only narrow the match |
| MatchFacts.MatchCollJoin | Sen.js:1104-1156 | a joined collection matches exactly when one of the two does |
| WalkFacts.AncestorHitNearest | Sen.js:1135 | the descendant search finds nothing exactly when no node up from the start matches, and otherwise finds the nearest match |
| WalkFacts.SiblingHitNearest | Sen.js:1147-1149 | the `~` search finds nothing exactly when no earlier element sibling matches, and otherwise finds the nearest match |
| WalkFacts.DescendantStepNearest | Sen.js:1134-1135 | the descendant step lands on the nearest matching ancestor, or finds none only when no ancestor matches |
| WalkFacts.SiblingStepNearest | Sen.js:1146-1149 | the `~` step lands on the nearest matching earlier element sibling |
| WalkFacts.StepRelated | Sen.js:1134-1151 | a step lands on a node that passes the part and stands in the relation to where it started |
| WalkFacts.AncestorsFromParent | Sen.js:1135 | the ancestors are the parent and the nodes up from it |
| WalkFacts.ClimbChained | Sen.js:1112-1153 | a successful walk visits one node per part, each passing its part and related to the next by that part's relation |
| WalkFacts.WalkSound | Sen.js:1103-1157 | a selector matches only where a chain of related nodes passes its parts |
| WalkFacts.ClimbComplete | Sen.js:1137-1145 | with only `>` and `+` relations, the walk finds every chain |
| WalkFacts.WalkCompleteWithoutSearch | Sen.js:1137-1145 | so such a selector matches wherever a chain exists |
| WalkFacts.GreedyWalkMisses | Sen.js:1134-1135 | the walk never backtracks: `A > B C` does not match the C of `<A><B><B><C/></B></B></A>`, although the chain A, outer B, C exists, because the descendant step commits to the inner B |
| WalkFacts.NoneHitsCons | Sen.js:1135 | no node of `[x] + s` matches exactly when `x` does not and no node of `s` does |
| WalkFacts.FirstHitCons | Sen.js:1135 | a non-matching head leaves the first match in the rest |
| WalkFacts.FirstHitHead | Sen.js:1135 | a matching head is the first match |
| PseudoFacts.LangNearest | Sen.js:504-511 | `:lang(v)` holds exactly when the nearest node from the element up that declares a language declares `v` |
| PseudoFacts.NearestLangCons | Sen.js:506-507 | one loop turn: the node's own language decides, or else the nodes above it do |
| PseudoFacts.NoLangCons | Sen.js:506-507 | a node without a language leaves the question to the rest |
| PseudoFacts.DirNearest | Sen.js:512-519 | `:dir(v)` holds exactly when the nearest declared direction from the element up is `v`, or there is none and `v` is "ltr" |
| PseudoFacts.NearestDirCons | Sen.js:514-516 | one loop turn: the node's own direction decides, or else the nodes above it do |
| PseudoFacts.NoDirCons | Sen.js:514-516 | a node without a direction leaves the question to the rest |
| PseudoFacts.NameBeforeAny | Sen.js:333 | the backward search finds the name exactly when some earlier element sibling carries it |
| PseudoFacts.NameAfterAny | Sen.js:340 | the forward search finds the name exactly when some later element sibling carries it |
| PseudoFacts.FirstOfTypeHolds | Sen.js:330-336 | `:first-of-type` holds exactly when no earlier element sibling has the element's node name |
| PseudoFacts.LastOfTypeHolds | Sen.js:337-343 | `:last-of-type` holds exactly when no later element sibling has the element's node name |
| PseudoFacts.NoContentAll | Sen.js:456-461 | the walk passes exactly when every node from the start is neither text nor named after "@" |
| PseudoFacts.EmptyHolds | Sen.js:454-464 | `:empty` holds exactly when every child node is neither text nor named after "@" |
| PseudoFacts.NotMatchesHold | Sen.js:465-485 | `:not(list)` holds exactly when no selector of the list matches, and `:matches(list)` exactly when some selector does |
| PseudoFacts.AloneMatches | Sen.js:391 | the one-part collection `[[part]]` matches exactly the elements that pass the part |
| PseudoFacts.CountIsFilterLength | Sen.js:391 | counting the matching elements gives the length of what `filterSelector` keeps |
| PseudoFacts.OnlyMatchIsFilterCount | Sen.js:388-393 | `:only-match` counts the parent's element children that pass the part, as the source counts them through `filterSelector` |
| Findings.AttrHoldsFixedIsLiteral | Sen.js:192-194 | with `^` and `$` escaped as well, the attribute expression is the literal comparator predicate the matcher uses |
| Findings.DollarOperandAsWritten | Sen.js:192-194 | as written, `[a="a$b"]` does not match an element whose `a` is "a$b" |
| Findings.FixedReadsLiterally | Sen.js:192-194 | the corrected escape is read back as the operand's characters |
| Findings.AsWrittenReadsAnchors | Sen.js:192-194 | the escape as written turns `^` and `$` into anchors and keeps every other character literal |
| Findings.PatternOfEscape | Sen.js:192-194 | escaping a set of characters that includes the backslash reads back character by character |
| Findings.LiteralRegex | Sen.js:638 | a literal pattern between the comparator's anchors finds a match exactly where the operand occurs with those anchors |
| Findings.LiteralMatch | Sen.js:728 | a literal pattern matches at `i` exactly where the text occurs there |
| Findings.AsWrittenLiteralWithoutAnchors | Sen.js:192-194 | an operand without `^` and `$` is read literally by the escape as written |
| Findings.AsWrittenAgreesWithoutAnchors | Sen.js:728 | the attribute test as written and the literal one the matcher uses agree on every operand without `^` and `$` |
| Findings.CaretOperandAsWritten | Sen.js:728 | as written, `[a^="^x"]` matches an element whose `a` is "x", which the literal reading refuses |

## Left out

- The containment test of a `$` part (Sen.js:1090): `doSelect` is not part of this model. It is modelled abstractly as "some element strictly inside the element matches the target with the element as origin".
- `doSelect` and native delegation (Sen.js:913-1031): the host lookups `querySelectorAll`, `getElementById`, `getElementsByClassName`, `getElementsByName` and `getElementsByTagName`, and the console logging. These are foreign calls. For the same reason `selectorTest` is always run with `queried` false.
- Feature detection (Sen.js:147-166, 527-618), `checkElementVersion`, `testSelect` and the probing half of `getPseudo`: they need a live browser. Their results are fixed constants.
- `selector.string` (the text handed to a native engine), `getElementMethodCount` as a native-engine hint beyond `useNative`, and `getterValue`: they only serve native delegation.
- Pseudo-classes that read host state (any-link, local-link, disabled, enabled, indeterminate, checked, focus) read opaque browser properties such as `href`, `location.href` and `activeElement`. Each node carries a `state` set naming the ones whose host condition holds. `:target` compares the id with the tree's `hash` (`location.hash` without `#`), and `:root` compares the element with the tree's `documentElement`. The `pre` of local-link, which may make a branch dead, is not modelled.
- only-of-type (Sen.js:344-354) is modelled as false. As written, its local `children` shadows the getter name, so evaluating it throws a `TypeError`. The model has no way to raise an error from the matcher.
- The regular expressions' `m` flag in the scanners: the scanners anchor at the start of the remaining text. A selector containing a line terminator can therefore be read differently from the source, where `^` may also match after a line break.
- `toUpperCase`, `toLowerCase` and the `i` flag are modelled as ASCII case mapping. Unicode case mapping is left out.
- Numbers: JavaScript doubles are modelled as unbounded integers, and `parseInt` of very long digit strings (which loses precision) is left out.
- Attribute and pseudo-class names that collide with `Object.prototype` keys (such as `[constructor]`) are left out. The model uses plain maps.
- Cache.SelectorCache.Parse: the cache is a plain object read with a truthy lookup (Sen.js:785), so texts such as "constructor", "toString", "valueOf", "hasOwnProperty" and `__proto__` return an `Object.prototype` member without being parsed. The model's cache is a map, and it parses these texts as tag selectors.
- The `window` export (Sen.js:1177) and the browser test harness test/Test.js: neither holds selector logic.
- Where the written specification and the code disagree, the model follows the code. `[a~=b]` is refused by `RxAttr`, and `unescapeUse(undefined)` then throws a `TypeError` before the "invalid attribute" check (Sen.js:693, 700). An unknown pseudo-class dereferences `null` (Sen.js:545, 749). Both give a `TypeError`, not a `SyntaxError`.
- Scan.NthLine: its own contract states only where a non-zero step comes from. What `RxNthV` accepts is stated by the `ParseFacts` lemmas, shape by shape: `an+b` (`NthLineFormula`, `NthParseFormula`), a signed offset (`OffsetLine`, `NthParseOffset`), `<digits>n` (`NthParseStepOnly`), `+b` (`NthParsePlusOffset`), and refusal of any other character (`NthLineChars`, `NthParseRefusesOther`) and of "n" and "-n+3" (`NthParseRefusesBareN`). Texts made only of digits, `n`, `+` and `-` in other orders are not characterised beyond these.
- Parse.PartSpec and Parse.PartsSpec: their contracts state progress and bookkeeping. What a part holds is stated by the contracts of `Parse.PartHead`, `Parse.Clauses`, the clause parsers and `Parse.TargetStep`, which `PartSpec` runs in that order, and by the `ParseFacts` lemmas about whole parses.
- Match.AttrHolds, Engine.AttrsPass, Engine.SelectorTest: the matcher reads an attribute operand literally, which is the reading with `^` and `$` escaped. The source's `escapeForRx` leaves both bare (Sen.js:175, 192-194), so in the expression built at Sen.js:728 they are anchors. `Findings.AsWrittenAgreesWithoutAnchors` proves the two readings agree on every operand without `^` and `$`. `Findings.DollarOperandAsWritten` and `Findings.CaretOperandAsWritten` show them differing on `[a="a$b"]` and `[a^="^x"]`.
- Engine.NthCheck, Match.NthSpec: for an element without a parent, `nthCheck` reads `firstChild` or `lastChild` of null (Sen.js:215) and throws a `TypeError`. The model answers false, since the matcher has no error outcome.
- Engine.Step, Match.Locate: a `>` step from an element without a parent makes `test()` read `nodeType` of null (Sen.js:1129, 1138-1139) and throw a `TypeError`. The model returns Null, so the selector does not match.
- Match.Each: only-child (Sen.js:310) and only-match (Sen.js:391) read the children of a null parent for an element without a parent and throw a `TypeError`. The model answers false. The nth pseudo-classes inherit the gap of `Engine.NthCheck`.

## Findings

| source | as written | input that shows it | evidently intended | confidence | as-written member | corrected member |
|---|---|---|---|---|---|---|
| Sen.js:192-194 | `escapeForRx` escapes `.*+?\|\()[]{}` but not `^` and `$`, so these become anchors in the attribute expression | `[a="a$b"]` against an element whose `a` is "a$b": the built expression `^a$b$` needs a line end between `a` and `b` | the operand is compared literally, so equal values match | not executed | Findings.DollarOperandAsWritten | Findings.AttrHoldsFixedIsLiteral |
