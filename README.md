# sizzle and pyq selectors, modelled in Dafny

This project models the core of pyq and its selector library `sizzle`. The
library lets you query Python source with CSS-like selectors: `class > def`,
`def#foo`, `:extends(object):not(def)`. The core has four parts.

- **The selector parser** (`sizzle/selector.py`, with an earlier copy in
  `pysel.py`). It splits a selector on `,` into chains. It cuts each chain once
  at its first combinator (`>` or bare whitespace). It builds each compound
  selector from its text: the leading identifier is the type, the identifier
  after the first `#` is the id, every `.ident` is a class, and every
  outermost `:name(balanced argument)` is a pseudo-class pair. The regular
  expressions are written out as scanners: `IdentPrefix`, `SplitCombinator`,
  `FirstId`, `FindClasses`, and the mutually recursive
  `MatchPseudo`/`MatchArgument`/`MatchPseudoRun` for the recursive pattern
  `:(ID)\(([^()]+|(?R)+)\)` (module `Selectors`, with `Text` for
  `split`/`strip`).
- **The match engine** (`sizzle/match.py`, module `Engine`). It walks the
  `(node, body)` pairs of a forest. It tests each node against a compound
  selector: type and id, then attributes, then pseudo-classes, each group
  short-circuited. A node that passes either continues with the next selector
  in its body or is yielded. Unless the selector is a child selector, the same
  selector is also searched deeper. Pseudo-classes are looked up in a registry
  that maps names to functions; `not` reparses its argument. The engine object
  is a `class` whose `RegisterPseudo` updates the registry in place.
  Generators become `Trace` values (module `Errors`): the nodes yielded, then
  the exception that stopped them, if any.
- **The Python-AST backend** (`pyq/astmatch.py`, modules `AstBackend` and
  `AstEngine`). It covers the type, id and attribute tests, `pseudo_extends`
  over base-class texts (also as its loop with early return), `iter_data`,
  and the decorator-count line adjustment of `match` (a loop).
- **The prototype matcher of `pysel.py`** (module `Prototype`). It walks the
  `CLS`/`DEF` records of the test directly. `Prototype.WalkAgrees` proves
  that, on every selector chain whose tests are shared, it yields exactly
  what the engine with the test-suite backend yields, and raises what that
  engine raises.

The engine's test suite has its own backend, `CustomMatchEngine` in
`test_sizzle.py` (module `CustomBackend`). Module `Fixture` builds the test
forest (`Test(object)` holding `foo`, `bar` and `Test2` holding `baz`, then a
top-level `baz`). It proves what the engine yields on that forest for every
selector the suite asks about, and what the prototype yields for the
selectors of `pysel.py`. Module `SelectorExamples` proves what `parse`
returns for each selector shape the parser's examples use. It proves each
shape for all identifiers in general, then for the example texts themselves.

Nodes (module `Trees`) are abstract. A node has a kind (class definition,
function definition, other), its string attributes, the texts of its base
classes, its line, its decorators, and a body that is absent or a list of
children.

Where sizzle/match.py, sizzle/selector.py and the test suites disagree, the model follows the code:

- `sizzle/match.py` reads `next_selector`, `combinator == Selector.CHILD` and
  `attrs`. sizzle/selector.py provides `_next` and `_direct` and no `attrs`.
  The model uses one `Selector` datatype in which these are `next`, `direct`
  and an `attrs` list. The parser always leaves `attrs` empty.
- `pseudo_not` indexes `Selector.parse(value)[0]`, but `Selector.parse` is a
  generator. The model takes the first chain (`Selectors.FirstChain`).
- The parser tests of `test_sizzle.py` use a newer parser API (`.name`/`.value`
  pairs, attributes). No parser property is taken from them. One of them,
  `test_pseudo_empty`, expects `:not()` to give the pair `('not', '')`. PSEUDORE
  needs a non-empty argument, so `:not()` gives no pair at all
  (`SelectorExamples.ParseEmptyPseudo`).
- For the same reason, `match_data` reads `:extends()` as a selector with
  no test. On the suite's forest it yields all six nodes
  (`Fixture.MatchExtendsNoArgument`), where `test_pseudos_noargs` expects one.
  The `if not value` branch of the suite's `pseudo_extends` is therefore never
  reached from a parsed selector.
- Classes are parsed but `match_node` never looks at them
  (`Engine.ClassesIgnored`).
- `pysel.py`'s `test_pseudos` returns before its assertion. The model shows
  the prototype yields `[Test]` for `:extends(object)`
  (`Fixture.PrototypeExtends`).

## Model

| member | source | states |
|---|---|---|
| Selectors.Chain | sizzle/selector.py:13-22 | the selectors linked by `_next`, head first: each entry's `_next` is the following entry and the last has none |
| Selectors.IdentPrefix | sizzle/selector.py:4-7 | TYPRE: the result is a prefix of the text, and the character after it, if any, is not an identifier character (greedy match) |
| Selectors.IdentPrefixIdent | sizzle/selector.py:4 | every character of the ID match is an identifier character |
| Selectors.IdentPrefixStop | sizzle/selector.py:4-7 | the ID pattern consumes exactly an identifier followed by a non-identifier character |
| Selectors.FirstSep | sizzle/selector.py:6 | the first separator character at or after which SUBSEL_RE can match, or the end |
| Selectors.FirstSepFirst | sizzle/selector.py:6 | no separator character before that position |
| Selectors.SpaceRun | sizzle/selector.py:6 | the greedy `\s*`: the run ends at the end or at a non-space |
| Selectors.SpaceRunSpace | sizzle/selector.py:6 | the run consists of whitespace |
| Selectors.SplitCombinator | sizzle/selector.py:34-39 | `split(SUBSEL_RE, s, 1)`: no split exactly when there is no separator character; otherwise head + separator + tail is the text, the head holds no separator and the separator is a leftmost SUBSEL_RE match |
| Selectors.SepMatchSound | sizzle/selector.py:6 | at a separator character the matched separator is whitespace around at most one `>`, followed by a non-space |
| Selectors.CutAtSound | sizzle/selector.py:34 | the split at the first separator character reassembles the text, with a separator-free head |
| Selectors.SplitCombinatorUnique | sizzle/selector.py:34-39 | the converse: any head/separator/tail decomposition of that shape is the one the split returns |
| Selectors.FirstId | sizzle/selector.py:49-57 | `findall(IDRE)[0]`: no id exactly when the text holds no `#` |
| Selectors.FirstIdAfterFirstHash | sizzle/selector.py:49-57 | the id is the identifier right after the first `#` |
| Selectors.FindClassesEveryDot | sizzle/selector.py:50 | `findall(CLSRE)` equals the reference reading in which every `.` contributes the identifier after it, in textual order |
| Selectors.FindClassesCount | sizzle/selector.py:50 | one class per `.` of the text |
| Selectors.FindClassesNone | sizzle/selector.py:50 | no `.`, no class |
| Selectors.FindClassesSkip | sizzle/selector.py:50 | text without `.` before the rest contributes no class |
| Selectors.ClassAfterDot | sizzle/selector.py:50 | `.c` followed by a non-identifier character gives the class `c`, then the classes of the rest |
| Selectors.NonParenRun | sizzle/selector.py:10 | the greedy `[^()]+` candidate: parenthesis-free and ending at a parenthesis or at the end |
| Selectors.MatchPseudo | sizzle/selector.py:10 | one PSEUDORE match consumes at least `:x()` and more than its argument |
| Selectors.MatchArgument | sizzle/selector.py:10 | the argument alternative `([^()]+\|(?R)+)` is non-empty and is followed by `)` |
| Selectors.MatchPseudoRun | sizzle/selector.py:10 | `(?R)+` consumes at least one whole match |
| Selectors.MatchPseudoSound | sizzle/selector.py:10 | a match consumes exactly `:name(value)`, with an identifier name and a non-empty argument with balanced parentheses |
| Selectors.MatchPseudoBalanced | sizzle/selector.py:10 | the text of one match has balanced parentheses |
| Selectors.MatchPseudoRunBalanced | sizzle/selector.py:10 | a run of matches has balanced parentheses |
| Selectors.MatchArgumentBalanced | sizzle/selector.py:10 | an accepted argument has balanced parentheses |
| Selectors.BalancedPseudoText | sizzle/selector.py:10 | `:name(value)` is balanced when the value is |
| Selectors.BalancedConcat | sizzle/selector.py:10 | balanced texts concatenate to a balanced text |
| Selectors.NoEmptyArgument | sizzle/selector.py:10 | `:name()` is no match: the argument cannot be empty |
| Selectors.MatchPseudoNoArgument | sizzle/selector.py:10 | a position whose argument matches neither alternative gives no match |
| Selectors.MatchArgumentPlain | sizzle/selector.py:10 | a non-empty parenthesis-free argument is taken whole by the plain alternative |
| Selectors.MatchArgumentNested | sizzle/selector.py:10 | an argument `:m(v)` is taken whole by the recursive alternative |
| Selectors.MatchPseudoSimple | sizzle/selector.py:10 | `:name(value)` with a plain value is one match capturing `(name, value)` |
| Selectors.MatchPseudoNested | sizzle/selector.py:10 | `:name(:inner(value))` is one match whose value is the inner text, unparsed |
| Selectors.MatchPseudoWith | sizzle/selector.py:10 | `:name(arg)` is one match capturing `(name, arg)` whenever the argument pattern accepts `arg` |
| Selectors.MatchPseudoAt | sizzle/selector.py:10 | the match read off its parts: the colon, the name, the parenthesis and the accepted argument |
| Selectors.FindPseudos | sizzle/selector.py:51 | `findall(PSEUDORE)`: every captured value is shorter than the text |
| Selectors.FindPseudosSound | sizzle/selector.py:51 | every reported pair occurs in the text as `:name(value)`, with an identifier name and a non-empty balanced value |
| Selectors.FindPseudosHit | sizzle/selector.py:51 | a match at the start is reported, and the scan resumes after it (no overlapping matches) |
| Selectors.FindPseudosMiss | sizzle/selector.py:51 | with no match at the start, the scan moves on by one character |
| Selectors.FindPseudosNone | sizzle/selector.py:51 | no `:`, no pseudo-class |
| Selectors.Build | sizzle/selector.py:32-41 | the head carries the given `_direct` and no attributes; the chain continues exactly when the text holds a separator character; pseudo arguments are shorter than the text |
| Selectors.BuildHead | sizzle/selector.py:33-59 | the head's name is the longest prefix free of whitespace and `>` |
| Selectors.BuildStep | sizzle/selector.py:33-46 | one step of `build`: the head's `build_sub`, then the tail built with `_direct` set exactly when the separator held `>` |
| Selectors.BuildCut | sizzle/selector.py:33-46 | for any head/separator/tail decomposition, the chain is the head followed by the tail's chain, direct exactly after `>` |
| Selectors.BuildPlain | sizzle/selector.py:44-60 | a single compound text without `.` and `:` has its leading identifier as type, its first `#` id, and nothing else |
| Selectors.BuildDirect | sizzle/selector.py:34-46 | the selector after the head is a child link exactly when the first non-space character after the head is `>` |
| Selectors.BuildNames | sizzle/selector.py:33-59 | the names of a chain are the text minus its separator characters: nothing lost, nothing repeated |
| Selectors.BuildChildLinks | sizzle/selector.py:33-46 | the chain has one child link per `>` of the text |
| Selectors.BuildLength | sizzle/selector.py:33-46 | chain length = 1 + number of `>` + number of bare whitespace separators |
| Selectors.Parse | sizzle/selector.py:27-30 | one chain per comma-separated piece, in order, each built from the stripped piece |
| Selectors.FirstChain | sizzle/match.py:15 | the first chain of `pseudo_not`'s argument; its pseudo arguments are shorter than the argument (the reparse terminates) |
| Selectors.ParseCount | sizzle/selector.py:27-30 | the number of chains is the number of commas plus one |
| Selectors.ParseConcat | sizzle/selector.py:27-30 | the chains of `a,b` are those of `a` followed by those of `b` |
| Selectors.ParseSingle | sizzle/selector.py:27-30 | a text without a comma is the one chain of its stripped text |
| Selectors.ParseHeadsNotDirect | sizzle/selector.py:27-33 | no chain produced by `parse` starts with a child link |
| Selectors.ParseEmpty | sizzle/selector.py:27-60 | the empty selector is one compound selector with no constraint |
| Text.Split | sizzle/selector.py:29 | `str.split`: never an empty list |
| Text.SplitJoin | sizzle/selector.py:29 | split and join are inverse, the pieces hold no separator, and there is one piece more than separators |
| Text.SplitConcat | sizzle/selector.py:29 | splitting at a separator concatenates the splits of both sides |
| Text.SplitNone | sizzle/selector.py:29 | a text without the separator is one piece |
| Text.Strip | sizzle/selector.py:30 | `str.strip`: no longer than the text, and starts and ends with a non-space |
| Text.StripAround | sizzle/selector.py:30 | stripping removes exactly the whitespace around a text |
| Text.SplitPieceContained | pyq/astmatch.py:27-29 | every piece of a split occurs in the split text |
| Engine.IterData | sizzle/match.py:82-83 | fails exactly for the base class, with NotImplementedError from `iter_data`; with either backend it pairs every node with its body, in order |
| Engine.CheckPairs | sizzle/match.py:65-71 | `_iter_data`: passes on the pairs before the first tuple that is not a pair, then raises; it completes exactly when every tuple is a pair |
| Engine.Pairs | sizzle/match.py:65-71 | the pairs the walk reads are the nodes with their bodies, in order |
| Engine.PairsComplete | sizzle/match.py:65-71 | with either backend, `_iter_data` never raises and pairs every node |
| Engine.CheckPairsStopsAtFirstBad | sizzle/match.py:65-71 | with a bad tuple at `k`, exactly the first `k` pairs are passed on, then the error is raised |
| Engine.MatchEngine.constructor | sizzle/match.py:7-8 | a new engine registers `not` only |
| Engine.MatchEngine.RegisterPseudo | sizzle/match.py:10-11 | adds or replaces one entry so the last registration wins; every other entry is unchanged |
| Engine.EmptySelectorMatchesAll | sizzle/match.py:37-53 | a selector with no type, id, attribute or pseudo-class passes every node and asks the backend nothing |
| Engine.ClassesIgnored | sizzle/match.py:37-53 | the node test does not depend on the classes |
| Engine.RulesShortCircuit | sizzle/match.py:37-46 | a failed type or id test decides the node; attributes and pseudo-classes are not evaluated |
| Engine.UnknownPseudoRaises | sizzle/match.py:60-63 | an unregistered pseudo-class raises KeyError when its turn comes |
| Engine.HoldsConjunction | sizzle/match.py:37-63 | a node passes exactly when its rules, its attribute rules and its pseudo-classes all pass |
| Engine.NotNegates | sizzle/match.py:13-15 | `:not(v)` raises exactly when the first chain of `v` raises on the node, and otherwise passes exactly when that chain's node test fails (no tree search) |
| Engine.NotStep | sizzle/match.py:13-15 | `pseudo_not` is the negated node test of the first chain of its argument, errors passed on |
| Engine.MatchDataCollects | sizzle/match.py:22-35 | when the walk completes, it yields the contributions of the passing candidates in preorder; a child selector's candidates are the given nodes only |
| Engine.CollectConcat | sizzle/match.py:22-35 | what the walk collects over two candidate lists is the concatenation |
| Engine.CollectTerminal | sizzle/match.py:31-32 | at the end of a chain every passing candidate is yielded, once per time it is a candidate |
| Engine.SingleSelector | sizzle/match.py:22-35 | a one-selector chain yields the passing nodes of the whole forest, in preorder |
| Engine.ChildContribution | sizzle/match.py:26-35 | for `a > b`, a passing node contributes exactly its direct children that pass `b` |
| Engine.MatchDataWithin | sizzle/match.py:22-35 | every yielded node is a node of the forest, whatever is raised |
| Engine.WalkCompletes | sizzle/match.py:22-35 | with either backend, a walk whose node tests never raise completes |
| Engine.BaseEngineRaises | sizzle/match.py:73-83 | the base engine raises NotImplementedError from `iter_data` before yielding anything |
| Engine.BaseMatchDataRaises | sizzle/match.py:82-83 | the same for one chain |
| Engine.MatchConcat | sizzle/match.py:17-20 | the results for `a,b` are those for `a` followed by those for `b`; an error in `a` stops everything |
| Engine.MatchChainsConcat | sizzle/match.py:17-20 | matching two lists of chains is matching one then the other |
| Engine.NoDeduplication | sizzle/match.py:17-20 | repeating an alternative repeats its results |
| Engine.ThenAssoc | sizzle/match.py:19-20 | nested `yield from` groups either way: what `match` yields and raises does not depend on how the generators are nested |
| Engine.EmptySelectorYieldsAll | sizzle/match.py:17-53 | the empty selector yields every node of the forest, in preorder |
| AstBackend.MatchType | pyq/astmatch.py:32-37 | `class` tests for a class definition and `def` for a function definition; any other name is falsy |
| AstBackend.MatchId | pyq/astmatch.py:39-40 | compares the node's name, raising AttributeError exactly when the node has none |
| AstBackend.MatchAttrPresent | pyq/astmatch.py:42-58 | on a present attribute the five operators are equality, inequality, substring, prefix and suffix |
| AstBackend.MatchAttrMissing | pyq/astmatch.py:43-58 | on a missing attribute `=` is false, `!=` is true, and the other three raise |
| AstBackend.MatchAttrNotEqual | pyq/astmatch.py:45-49 | `!=` is the negation of `=`, with or without the attribute |
| AstBackend.MatchAttrImplications | pyq/astmatch.py:45-58 | equality implies prefix and suffix, and each of those implies substring |
| AstBackend.MatchAttrUnknown | pyq/astmatch.py:60 | any other operator raises |
| AstBackend.Extends | pyq/astmatch.py:21-30 | raises exactly when the node has no `bases` |
| AstBackend.AnyBaseExists | pyq/astmatch.py:23-30 | the base loop holds exactly when some base matches |
| AstBackend.ExtendsIff | pyq/astmatch.py:21-30 | on a node with bases, `pseudo_extends` holds exactly when some base equals the value or is a dotted name with the value as a part |
| AstBackend.BaseMatchesParts | pyq/astmatch.py:27-29 | the substring pre-check of the dotted case never changes the result |
| AstBackend.BaseMatchesDotted | pyq/astmatch.py:25-29 | a dotted value matches only a base with exactly its text |
| AstBackend.IterData | pyq/astmatch.py:62-64 | one `(node, body)` pair per node, in order, each a pair |
| AstEngine.NewAstMatchEngine | pyq/astmatch.py:8-10 | the AST engine registers `not`, then `extends` |
| AstEngine.PseudoExtends | pyq/astmatch.py:21-30 | the loop with early return computes `AstBackend.Extends` |
| AstEngine.WithLines | pyq/astmatch.py:14-19 | each node with its line moved down by its number of decorators for class and function definitions, and unchanged otherwise |
| AstEngine.Match | pyq/astmatch.py:12-19 | every node the engine yields, with its reported line, then what the engine raised |
| CustomBackend.MatchType | test_sizzle.py:173-179 | `class` and `def` test the record kind; any other name leaves `cls` unbound and raises |
| CustomBackend.Extends | test_sizzle.py:167-171 | an empty value asks for an empty `extends` list, and any other value for membership in it |
| Prototype.MatchKind | pysel.py:180-187 | `isinstance(d, typcls[typ])`: the record kind for `class` and `def`, and KeyError for any other name |
| Prototype.UnknownTypeRaises | pysel.py:181-187 | an unknown type raises KeyError before any other test |
| Prototype.UnknownPseudoSkipped | pysel.py:192-197 | a pseudo-class other than `not` and `extends` adds no condition |
| Prototype.FirstChainBuild | pysel.py:195 | on an argument without commas and outer whitespace, the engine's reparse builds the same selector as the prototype's `Selector.build` |
| Prototype.RulesAgree | pysel.py:172-190 | on a shared selector, `_match_rules` is the engine's node test |
| Prototype.PseudosAgree | pysel.py:192-197 | on shared pseudo-classes, `_match_pseudos` is the engine's pseudo-class test |
| Prototype.NotAgrees | pysel.py:194-195 | one `not` step agrees once its argument's test does |
| Prototype.ExtendsAgrees | pysel.py:196-197 | one `extends` step agrees with the test-suite backend |
| Prototype.WalkAgrees | pysel.py:158-170 | on a shared chain, `_match_sub` yields and raises exactly what the engine's walk does |
| Prototype.PairsAgree | pysel.py:158-170 | the same for the walk over the rest of a forest |
| Prototype.ChainsAgree | pysel.py:154-156 | `_match` over shared chains is the engine's matching of those chains |
| Prototype.MatchAgrees | pysel.py:149-156 | for a selector whose chains are all shared, the helper `match` equals the engine's `match` |
| SelectorExamples.ParseType | pysel.py:82-86 | an identifier is one chain of one type selector |
| SelectorExamples.ParseTwo | sizzle/selector.py:27-30 | `a, b` gives two chains in order, the second stripped of its space |
| SelectorExamples.ParseSpaced | sizzle/selector.py:30 | a leading space is stripped |
| SelectorExamples.ParseChild | pysel.py:96-105 | `a > b` gives `a` followed by `b` as a child link |
| SelectorExamples.ParseDescendant | pysel.py:107-114 | `a b` gives `a` followed by `b` as a descendant link |
| SelectorExamples.ParseClassChild | pysel.py:72-80 | `.c > b` gives a head named `.c` with no type and the class `c`, then `b` as a child link |
| SelectorExamples.ParseComposed | pysel.py:88-94 | `t.c.d` gives type `t` and classes `[c, d]` |
| SelectorExamples.ParseTypeId | pysel.py:218-220 | `t#i` gives type `t` and id `i` |
| SelectorExamples.ParsePseudo | pysel.py:116-122 | `:n(v)` gives the one pair `(n, v)` |
| SelectorExamples.ParseNested | pysel.py:124-130 | `:n(:m(v))` gives the one pair `(n, ":m(v)")` |
| SelectorExamples.ParseCompound | pysel.py:132-140 | `:n(v):m(w)` gives the pairs `(n, v)` and `(m, w)`, in order |
| SelectorExamples.ParseNoArgument | sizzle/selector.py:10 | `:n()` gives no pair and so no test |
| SelectorExamples.ParseTypeSelector | pysel.py:82-86 | `class` parses to the type selector `class` |
| SelectorExamples.ParseMultipleSelectors | sizzle/selector.py:27-30 | `class, def` parses to the chains `class` and `def` |
| SelectorExamples.ParseChildSelector | pysel.py:96-105 | `class > def` links `def` as a child |
| SelectorExamples.ParseNonchildSelector | pysel.py:107-114 | `class def` links `def` as a descendant |
| SelectorExamples.ParseClassSelectorChild | pysel.py:72-80 | `.class > def` has the head `.class` and a child link `def` |
| SelectorExamples.ParseComposedSelector | pysel.py:88-94 | `class.foo.bar` has type `class` and classes `[foo, bar]` |
| SelectorExamples.ParsePseudoSelector | pysel.py:116-122 | `:not(1)` has the one pair `(not, 1)` |
| SelectorExamples.ParseNestedPseudos | pysel.py:124-130 | `:not(:not(1))` has the one pair `(not, ":not(1)")` |
| SelectorExamples.ParseCompoundPseudos | pysel.py:132-140 | `:not(1):not(2)` has the pairs `(not, 1)` and `(not, 2)` |
| SelectorExamples.ParseDefFoo | pysel.py:218-220 | `def#foo` has type `def` and id `foo` |
| SelectorExamples.ParseEmptyPseudo | sizzle/selector.py:10 | `:not()` has no pair |
| Fixture.NewCustomMatchEngine | test_sizzle.py:162-165 | the suite's engine registers `not`, then its `extends` |
| Fixture.PreorderData | test_sizzle.py:195-205 | the engine tests the forest's nodes in the order Test, foo, bar, Test2, baz, baz |
| Fixture.MatchClass | test_sizzle.py:213-214 | `class` yields Test and Test2 |
| Fixture.MatchSpacedDef | test_sizzle.py:215 | ` def` yields foo, bar, baz, baz |
| Fixture.MatchClassAndDef | test_sizzle.py:215 | `class, def` yields six nodes, the classes first |
| Fixture.MatchClassChildDef | test_sizzle.py:217-218 | `class > def` yields foo, bar and the inner baz |
| Fixture.MatchDefBla | test_sizzle.py:220-221 | `def#bla` yields nothing |
| Fixture.MatchDefFoo | test_sizzle.py:222 | `def#foo` yields foo |
| Fixture.MatchExtendsObject | test_sizzle.py:224-225 | `:extends(object)` yields Test |
| Fixture.MatchExtendsNoArgument | test_sizzle.py:227-228 | `:extends()` yields all six nodes, not the one the test expects |
| Fixture.MatchNotExtendsObject | test_sizzle.py:230-232 | `:not(:extends(object))` yields the five other nodes |
| Fixture.MatchExtendsObjectNotDef | test_sizzle.py:233-234 | `:extends(object):not(def)` yields Test |
| Fixture.MatchNotDef | test_sizzle.py:235-236 | `:not(def)` yields Test and Test2 |
| Fixture.ProtoSame | pysel.py:149-156 | on the forest, the prototype matches a shared one-chain selector as the engine does |
| Fixture.ProtoSameTwo | pysel.py:149-156 | the same for a two-chain selector |
| Fixture.ProtoNotKind | pysel.py:192-197 | for `:not(t)` the prototype and the engine agree on the forest |
| Fixture.ProtoNotExtends | pysel.py:192-197 | for `:not(:extends(v))` the prototype and the engine agree on the forest |
| Fixture.ProtoExtendsNotKind | pysel.py:192-197 | for `:extends(v):not(t)` the prototype and the engine agree on the forest |
| Fixture.PrototypeClass | pysel.py:211-212 | the prototype yields Test and Test2 for `class` |
| Fixture.PrototypeClassAndDef | pysel.py:213 | the prototype yields six nodes for `class, def` |
| Fixture.PrototypeChild | pysel.py:215-216 | the prototype yields foo, bar and the inner baz for `class > def` |
| Fixture.PrototypeDefBla | pysel.py:218-219 | the prototype yields nothing for `def#bla` |
| Fixture.PrototypeDefFoo | pysel.py:220 | the prototype yields foo for `def#foo` |
| Fixture.PrototypeExtends | pysel.py:222-224 | the prototype yields Test for `:extends(object)` (the test itself returns before asserting) |
| Fixture.PrototypeNotExtends | pysel.py:227-228 | the prototype yields the five other nodes for `:not(:extends(object))` |
| Fixture.PrototypeExtendsNotDef | pysel.py:229-230 | the prototype yields Test for `:extends(object):not(def)` |
| Fixture.PrototypeNotDef | pysel.py:231-232 | the prototype yields Test and Test2 for `:not(def)` |

## Left out

- Whitespace is ASCII whitespace (space, tab, line feed, carriage return, vertical tab, form feed). The other Unicode whitespace that `str.strip` and `\s` also remove is not modelled.
- Node attributes are strings or absent. Non-string attribute values, which `match_attr` would compare with `==` or feed to `in`/`startswith`, are not modelled.
- The backend is a closed choice (`Engine.Backend`) and the registry maps names to a closed set of pseudo-class functions (`Engine.PseudoFn`). A user-supplied backend subclass or pseudo-class function is not modelled.
- Generators are modelled as finished traces: what they yield, then the error that stopped them. Laziness, and a consumer stopping early, are not modelled.
- Reading and parsing a file (`astor.parsefile`), printing a base class (`astor.to_source`, taken as the given base texts) and the command-line tool, directory walk and highlighting of `pyq/pyq.py` and `pyq.py` are I/O and are not part of this model.
- `pseudo_fns` is a class-level dictionary shared by every engine instance. The model gives each engine its own registry.
- `iter_data` results are modelled as a node followed by bodies. A tuple without a node, or one whose second element is not a body, is not modelled.
- `Selector.parse(value)[0]` on the generator `Selector.parse` returns would raise TypeError. The model takes the first chain instead, which is what the engine evidently intends.
- The engine's `match_data` is not modelled for a backend that is missing only some of its methods (for example `iter_data` but not `match_type`). Each of the three backends is modelled whole.
- Prototype.MatchAgrees: stated only for selectors whose chains use `class`/`def` types, `extends` with an argument, and `not` with an argument free of commas and outer whitespace. On other selectors the prototype and the engine differ, and `Prototype.UnknownTypeRaises`/`Prototype.UnknownPseudoSkipped` state how.
- Engine.MatchDataCollects: describes the walk only when it completes. When a test raises, `Engine.MatchDataWithin` bounds what was yielded but does not give its exact order.
