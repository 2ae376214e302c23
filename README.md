# A verified model of a small grep regex core

This project models the pattern compiler and matcher of a small Java grep
clone. `Pattern.compile` scans a pattern string once and builds a linked
chain `Start → CharProperty* → Last`, with one `CharProperty` node per
top-level atom:

- an escape `\d` or `\w` becomes a digit or word class;
- a bracket set `[...]` becomes a 256-entry membership table, joined with
  any embedded `\d`/`\w` classes;
- any other character becomes a literal.

A `Matcher` runs the chain over a text. `Start` tries each start index from
left to right, each `CharProperty` consumes one character its predicate
accepts, and `Last` records where the match ends. The matcher keeps the
per-search state `first`, `last`, `from`, `to` and `hitEnd`, and two capture
arrays.

The model, module by module:

- `Wrappers`: `Option` and `Result`.
- `CharacterClasses` (CharacterClass.java): the standalone `DIGITS`/`WORDS`
  enum and its linear-search `FromIdentifier`.
- `CharPredicates` (Pattern.java, the predicate classes):
  - `CharacterRangeClass`;
  - the `AsciiArrayClass` table as a class over an `array<bool>` that `Add`
    updates in place;
  - a `CharPredicate` datatype with its meaning `Accepts`;
  - `Faults`, which says when `test` would throw;
  - the `Test` method, which holds the `OrCharPredicate` loop.
- `PatternSyntax`: what `compile` computes, written as values.
  - `Lex` splits a pattern into atoms. `Render` is its inverse, proved in both
    directions.
  - `TranslateToken` turns each atom into a predicate.
  - `CompileSpec` is the whole compile: the list of predicates, or the
    exception.
- `Patterns` (Pattern.java, `compile` and the node types):
  - nodes in an indexed list linked by position (`Link`);
  - `Compile`, the imperative scan, with the bracket loop in `ReadSet`. It
    relinks the last node exactly as the Java code does, and is proved to
    return `Chain(CompileSpec(e))`.
- `MatchSemantics`: the meaning of running a chain.
  - `MatchesFrom` and `HitsEnd` describe one attempt; `Leftmost` is the
    first successful start.
  - Lemmas show that `Leftmost` is the leftmost window whose characters the
    atoms accept, one each.
  - A metacharacter-free pattern matches exactly when the text contains it.
- `Matchers` (Matcher.java, and the `match` methods of the nodes):
  - the `Matcher` class with `Reset`, `Find`, `Search`, `Group`,
    `GroupWhole` and `GroupCount`;
  - the node methods `StartMatch`, `NodeMatch`, `CharPropertyMatch` and
    `LastMatch`, which write the matcher's fields;
  - each is proved against `MatchSemantics`.
- `PatternExamples` (PatternTest.java): cases from the test suite, stated
  about the model.

What `compile` implements, and what it does not:

- Only three kinds of atom: a literal character, an escape `\d` or `\w`,
  and a bracket set. There is no negation, `.`, anchor, group, alternation,
  quantifier or backreference: `^`, `$`, `.`, `(`, `)`, `|`, `+`, `?`, `*`
  and `{` are plain literals.
- `\\` is not an escape for a backslash: after `\`, a second `\` is an
  unknown class identifier, so `compile` throws IllegalArgumentException.
- An unterminated bracket set is not an error: it silently takes the rest
  of the pattern.
- `^` at the start of a bracket set is an ordinary member, not a negation.
  So `[^abc]` matches "cab", although the test at
  src/test/java/grep/PatternTest.java:83 expects it not to.
- Matcher.java reads `pattern.groupCount`, which Pattern.java does not
  declare. The model gives `Pattern` a `groupCount` field, which `Compile`
  sets to 0.

## Model

| member | source | states |
|---|---|---|
| CharacterClasses.CharacterClass.Test | src/main/java/grep/CharacterClass.java:8-25 | `DIGITS` accepts `'0'..'9'`; `WORDS` accepts ASCII digits, letters and `_`; only ASCII characters are accepted |
| CharacterClasses.CharacterClass.Identifier | src/main/java/grep/CharacterClass.java:8-29 | the `identifier` field: `'d'` for DIGITS, `'w'` for WORDS |
| CharacterClasses.DigitsAreWords | src/main/java/grep/CharacterClass.java:12-21 | every character `DIGITS` accepts, `WORDS` accepts too |
| CharacterClasses.ValuesComplete | src/main/java/grep/CharacterClass.java:8-25 | `values()` lists every constant of the enum |
| CharacterClasses.FromIdentifier | src/main/java/grep/CharacterClass.java:29-41 | the loop returns a class iff some class has that identifier, and then that class (`fromIdentifier(k.identifier) == k`); `None` is the IllegalArgumentException |
| CharPredicates.CharacterRangeClass.Test | src/main/java/grep/Pattern.java:155-176 | the digit and word tests of the range classes, accepting only ASCII characters |
| CharPredicates.CharacterRangeClass.Identifier | src/main/java/grep/Pattern.java:157-178 | the `identifier` field: `'d'` for DIGITS, `'w'` for WORDS |
| CharPredicates.RangeClassOf | src/main/java/grep/Pattern.java:180-188 | the class named by an escape letter: defined iff some class has that identifier, and then it is that class |
| CharPredicates.FromIdentifier | src/main/java/grep/Pattern.java:180-188 | the linear search over `values()` returns exactly `RangeClassOf(identifier)` |
| CharPredicates.Counterpart | src/main/java/grep/CharacterClass.java:8-29 | maps each range class to the enum constant with the same identifier |
| CharPredicates.RangeClassAgreesWithCharacterClass | src/main/java/grep/CharacterClass.java:8-41 | the two enums agree: the same test for corresponding constants, the same identifiers, and the same set of known identifiers |
| CharPredicates.AsciiArrayClass.constructor | src/main/java/grep/Pattern.java:208-210 | a fresh 256-entry table that rejects every character |
| CharPredicates.AsciiArrayClass.Wrap | src/main/java/grep/Pattern.java:212-214 | the table shares the given array |
| CharPredicates.AsciiArrayClass.Add | src/main/java/grep/Pattern.java:216-224 | returns true; afterwards `Test(c)` holds and every other entry is unchanged |
| CharPredicates.AsciiArrayClass.Test | src/main/java/grep/Pattern.java:221-224 | `test` reads the table entry at the character's code |
| CharPredicates.Test | src/main/java/grep/Pattern.java:193-249 | when no table is indexed out of range, `test` answers `Accepts`; for `Or` it is the loop that stops at the first accepting child, so it answers true iff some child accepts |
| CharPredicates.Accepts | src/main/java/grep/Pattern.java:193-249 | what each predicate answers: a table entry, a literal's equality, a range class's test, or the `or` of the children in order |
| CharPredicates.Faults | src/main/java/grep/Pattern.java:193-249 | when `test` throws: a table is consulted at or beyond its length, and inside an `or` only when no earlier child accepted |
| PatternSyntax.ScanSet | src/main/java/grep/Pattern.java:44-59 | the bracket scan never grows the text; an unclosed set leaves nothing after it; a dangling `\` only occurs in an unclosed set |
| PatternSyntax.ScanSetRender | src/main/java/grep/Pattern.java:44-59 | the items, the closing `]`, a dangling `\` and the rest put back together give the scanned text |
| PatternSyntax.RenderScanPrepend | src/main/java/grep/Pattern.java:44-59 | rendering an item before a scan puts its text in front |
| PatternSyntax.LexRender | src/main/java/grep/Pattern.java:28-78 | every pattern is the concatenation of the atoms `compile` reads it as |
| PatternSyntax.Lex | src/main/java/grep/Pattern.java:28-78 | the scan reads a pattern as a list of atoms: a literal, `\` and a letter, or a bracket set up to `]` or the end; a lone `\` at the end is marked as dangling |
| PatternSyntax.TranslateToken | src/main/java/grep/Pattern.java:31-77 | an atom becomes its predicate: a literal its `CharProperty` test, an escape its class or UnknownCharacterClass, a set its table-and-classes predicate |
| PatternSyntax.TranslateItems | src/main/java/grep/Pattern.java:44-59 | the bracket loop: each member marks its table entry, or raises ArrayIndexOutOfBounds at 256 and above; each escape appends its class, or raises UnknownCharacterClass |
| PatternSyntax.SetPredicate | src/main/java/grep/Pattern.java:61-67 | the set is the table alone without classes, otherwise the table or'ed with the classes in order |
| PatternSyntax.TranslateTokens | src/main/java/grep/Pattern.java:28-78 | the atoms are translated left to right and the first failure is the result |
| PatternSyntax.CompileSpec | src/main/java/grep/Pattern.java:21-82 | the outcome of `compile` as a value: the predicates of the atoms; else the exception of the first atom that fails, which Java throws at that atom; else, when a `\` dangles, StringIndexOutOfBounds at the pattern's length |
| PatternSyntax.LexRenderEscape | src/main/java/grep/Pattern.java:32-38 | an escape atom renders back to its two characters |
| PatternSyntax.LexRenderSet | src/main/java/grep/Pattern.java:40-71 | a bracket atom renders back to the text it was read from |
| PatternSyntax.SetBodyRender | src/main/java/grep/Pattern.java:40-59 | `[`, the rendered set and the text after it give the pattern |
| PatternSyntax.LexRenderLiteral | src/main/java/grep/Pattern.java:73-76 | a literal atom renders back to its character |
| PatternSyntax.LexRenderDanglingSet | src/main/java/grep/Pattern.java:51-52 | a set cut short by a lone `\` renders back to the pattern |
| PatternSyntax.RenderTokensCons | src/main/java/grep/Pattern.java:28-78 | rendering a list of atoms renders the first atom, then the rest |
| PatternSyntax.RenderCons | src/main/java/grep/Pattern.java:28-78 | an atom before atoms that render back renders back as a whole |
| PatternSyntax.RenderLex | src/main/java/grep/Pattern.java:28-78 | every well-formed list of atoms is what `compile` reads its rendering as, so reading and rendering are inverse |
| PatternSyntax.ScanRenderedItems | src/main/java/grep/Pattern.java:44-59 | the bracket scan reads rendered items back, and stops at `]`, at the end, or at a lone `\` |
| PatternSyntax.WellFormedTail | src/main/java/grep/Pattern.java:28-78 | dropping the first atom keeps a list well formed |
| PatternSyntax.LexLiteralStep | src/main/java/grep/Pattern.java:73-76 | a character other than `\` and `[` is read as a literal atom |
| PatternSyntax.LexEscapeStep | src/main/java/grep/Pattern.java:32-38 | `\` and the next character are read as one escape atom |
| PatternSyntax.LexSetStep | src/main/java/grep/Pattern.java:40-71 | `[`, well-formed items and `]` are read as one closed set atom |
| PatternSyntax.LexStep | src/main/java/grep/Pattern.java:28-78 | each well-formed atom, except an unclosed set, is read back as itself |
| PatternSyntax.LexUnclosedSet | src/main/java/grep/Pattern.java:44-59 | an unclosed set takes the rest of the pattern |
| PatternSyntax.Falses | src/main/java/grep/Pattern.java:209 | `new boolean[n]`: `n` entries, all false |
| PatternSyntax.RangePredicates | src/main/java/grep/Pattern.java:66 | one range predicate per collected class, in order |
| PatternSyntax.ItemError | src/main/java/grep/Pattern.java:52-57 | the exception an invalid bracket item raises |
| PatternSyntax.TranslateTokensPointwise | src/main/java/grep/Pattern.java:28-78 | the atoms translate iff each does; then there is one predicate per atom, in order; otherwise the first failing atom gives the error |
| PatternSyntax.OnePredicatePerAtom | src/main/java/grep/Pattern.java:21-82 | on success the pattern is the concatenation of its atoms and predicate `k` is atom `k`'s; compile fails iff `\` dangles or some atom fails |
| PatternSyntax.EscapeTranslation | src/main/java/grep/Pattern.java:32-38 | `\d` gives DIGITS, `\w` gives WORDS, any other letter (`\` included) gives UnknownCharacterClass |
| PatternSyntax.TranslateItemsOk | src/main/java/grep/Pattern.java:44-59 | the bracket loop succeeds iff every item is valid: a member below 256, or a known class |
| PatternSyntax.TranslateItemsError | src/main/java/grep/Pattern.java:44-59 | a failing bracket loop fails at its first invalid item, with that item's exception |
| PatternSyntax.TranslateItemsValue | src/main/java/grep/Pattern.java:44-59 | after the loop the table keeps its size and holds exactly the old entries plus the members, and the classes are appended in order |
| PatternSyntax.ClassesSpec | src/main/java/grep/Pattern.java:54-55 | no classes are collected iff every item is a member; the collected classes accept `c` iff some escape item does |
| PatternSyntax.SetPredicateSpec | src/main/java/grep/Pattern.java:61-67 | below the table size the set predicate never throws and accepts iff the table entry or a class does; at or beyond it, it throws; the table is used alone iff there are no classes |
| PatternSyntax.SetTranslation | src/main/java/grep/Pattern.java:40-70 | a set compiles iff all items are valid; it is then the table alone iff all items are members, and for characters below 256 it accepts exactly the characters some item admits; for 256 and above it throws (`^` is an ordinary member) |
| PatternSyntax.Literals | src/main/java/grep/Pattern.java:73-76 | one literal predicate per character |
| PatternSyntax.LiteralTokens | src/main/java/grep/Pattern.java:73-76 | one literal atom per character |
| PatternSyntax.LexLiteral | src/main/java/grep/Pattern.java:73-76 | a pattern without `\` and `[` is read as one literal atom per character |
| PatternSyntax.LiteralPattern | src/main/java/grep/Pattern.java:21-82 | a pattern without `\` and `[` compiles to one literal predicate per character |
| Patterns.Links | src/main/java/grep/Pattern.java:36-74 | each `CharProperty` node links to the node after it |
| Patterns.Chain | src/main/java/grep/Pattern.java:21-82 | the node list `compile` builds from predicates: `Start`, one `CharProperty` per predicate, `Last`, each linked to the next |
| Patterns.ValidChain | src/main/java/grep/Pattern.java:21-82 | the shape `compile` leaves: `Start` linked to position 1, a run of `CharProperty` nodes each linked to the next, and `Last` at the end |
| Patterns.Attach | src/main/java/grep/Pattern.java:36-80 | `current.next = node`: the appended node is last, the current node links to it and keeps its kind and predicate, earlier nodes are unchanged |
| Patterns.WithNext | src/main/java/grep/Pattern.java:84-86 | the `next` field set on a node; `Last` has no successor |
| Patterns.Linked | src/main/java/grep/Pattern.java:22-36 | while `compile` runs there is one node per atom read, plus `Start` |
| Patterns.ChainValid | src/main/java/grep/Pattern.java:21-82 | the compiled chain is `Start`, one linked `CharProperty` per predicate in order, then `Last`; the empty pattern gives `Start → Last` |
| Patterns.ChainOfNodes | src/main/java/grep/Pattern.java:21-82 | every valid chain is the chain of its own predicates |
| Patterns.AttachStep | src/main/java/grep/Pattern.java:36-74 | `current.next = current = new CharProperty(p)` appends one node and keeps the list in shape |
| Patterns.AttachLast | src/main/java/grep/Pattern.java:80 | linking `Last` completes the chain |
| Patterns.ContinueStart | src/main/java/grep/Pattern.java:22-28 | before the scan, the outcome of the rest is the whole compile |
| Patterns.Continue | src/main/java/grep/Pattern.java:28-80 | the outcome of `compile` from a point in the scan: the predicates built so far, followed by those of the rest of the pattern, or the exception the rest throws |
| Patterns.ContinueEnd | src/main/java/grep/Pattern.java:28-80 | at the end of the pattern the outcome is the predicates read so far |
| Patterns.TranslateTokensCons | src/main/java/grep/Pattern.java:28-78 | translating atoms translates the first, then the rest; the first error wins |
| Patterns.ContinueCons | src/main/java/grep/Pattern.java:28-78 | reading one atom moves its predicate from the rest into the result, or fails with its error |
| Patterns.ContinueLiteral | src/main/java/grep/Pattern.java:73-76 | one step of the scan on a literal |
| Patterns.ContinueEscape | src/main/java/grep/Pattern.java:32-38 | one step of the scan on `\x`: the class of `x`, or UnknownCharacterClass |
| Patterns.ContinueDanglingEscape | src/main/java/grep/Pattern.java:33 | a lone `\` at the end throws StringIndexOutOfBounds at the pattern's length |
| Patterns.ContinueBracket | src/main/java/grep/Pattern.java:40-71 | one step of the scan on `[`: the outcome of the bracket loop, then the rest |
| Patterns.SetOutcome | src/main/java/grep/Pattern.java:44-67 | the result of the bracket loop: a predicate and the remaining text, or an exception |
| Patterns.SetClose | src/main/java/grep/Pattern.java:44-48 | at `]` or at the end the loop stops and builds its predicate |
| Patterns.SetDangling | src/main/java/grep/Pattern.java:51-52 | a lone `\` at the end of a set throws StringIndexOutOfBounds |
| Patterns.SetClass | src/main/java/grep/Pattern.java:51-55 | an escape in a set appends its class, or throws UnknownCharacterClass |
| Patterns.SetMember | src/main/java/grep/Pattern.java:56-57 | a member sets its table entry, or throws ArrayIndexOutOfBounds at 256 and above |
| Patterns.ReadSet | src/main/java/grep/Pattern.java:40-67 | the bracket loop over a fresh `AsciiArrayClass` and a `ranges` list returns the predicate and end index `SetOutcome` gives, or its exception |
| Patterns.Compile | src/main/java/grep/Pattern.java:21-82 | the relinking scan returns the chain of `CompileSpec`'s predicates with `groupCount` 0, or exactly `CompileSpec`'s exception |
| Patterns.CompiledShape | src/main/java/grep/Pattern.java:21-82 | a compiled pattern is a valid chain with one node per atom, and node `k+1` holds atom `k`'s predicate |
| MatchSemantics.AcceptsAllCons | src/main/java/grep/Pattern.java:119-132 | atoms accept a window iff the first accepts its first character and the rest accept the rest |
| MatchSemantics.MatchesFrom | src/main/java/grep/Pattern.java:119-143 | one attempt from node `k` at `index`: each `CharProperty` needs a character before `to` that its predicate accepts, `Last` succeeds |
| MatchSemantics.Occurs | src/main/java/grep/Pattern.java:98-143 | the atoms of the chain accept the characters of the text from position `i` on, one each |
| MatchSemantics.HitsEnd | src/main/java/grep/Pattern.java:120-131 | whether that attempt reaches a `CharProperty` at the end of the text, which sets `hitEnd` |
| MatchSemantics.Leftmost | src/main/java/grep/Pattern.java:98-109 | the first start from `index` up to the end at which an attempt succeeds, if any |
| MatchSemantics.AnyHitsEnd | src/main/java/grep/Pattern.java:100-107 | whether some attempt of `Start`'s loop at a start in `[lo, hi)` sets `hitEnd` |
| MatchSemantics.SafeFrom | src/main/java/grep/Pattern.java:119-132 | no predicate that the attempt from node `k` tests throws |
| MatchSemantics.SafeStart | src/main/java/grep/Pattern.java:98-109 | no attempt of the search from `index` throws, up to the first start that matches |
| MatchSemantics.MatchesFromSpec | src/main/java/grep/Pattern.java:119-143 | the chain from node `k` succeeds at `index` iff the remaining atoms fit in the text and accept its characters one each |
| MatchSemantics.MatchesIffOccurs | src/main/java/grep/Pattern.java:98-143 | one attempt of `Start` at `i` succeeds iff the atoms accept `text[i..i+n]` |
| MatchSemantics.LeftmostIsLeftmostOccurrence | src/main/java/grep/Pattern.java:98-109 | `Start` finds the smallest `i >= from` where the atoms occur; it finds none iff they occur nowhere from `from` on |
| MatchSemantics.HitsEndBound | src/main/java/grep/Pattern.java:120-131 | `hitEnd` is set only by an attempt that runs out of text, and such an attempt fails |
| MatchSemantics.MatchesFromBound | src/main/java/grep/Pattern.java:119-143 | a successful attempt ends within the text |
| MatchSemantics.NoHitEndBeforeLeftmost | src/main/java/grep/Pattern.java:98-109 | no attempt before a successful one runs out of text |
| MatchSemantics.ForgetLater | src/main/java/grep/Pattern.java:98-109 | attempts before a start with room for the match never run out of text |
| MatchSemantics.LeftmostBounds | src/main/java/grep/Pattern.java:100-120 | the leftmost match starts at or after `from` and ends within the text |
| MatchSemantics.FindBeyondEnd | src/main/java/grep/Pattern.java:100 | a search from beyond the text finds nothing and never passes a character to a predicate |
| MatchSemantics.TokenSafe | src/main/java/grep/Pattern.java:193-249 | a compiled predicate never throws on a character below 256 |
| MatchSemantics.CompiledPredicatesSafe | src/main/java/grep/Pattern.java:193-249 | no node of a compiled chain throws on a character below 256 |
| MatchSemantics.SafeFromAll | src/main/java/grep/Pattern.java:119-132 | if no predicate throws on any character of the text, no attempt does |
| MatchSemantics.SafeStartAll | src/main/java/grep/Pattern.java:98-109 | and then no search does |
| MatchSemantics.CompiledSearchSafe | src/main/java/grep/Pattern.java:98-132 | searching a compiled pattern over a text of characters below 256 never throws |
| MatchSemantics.LiteralSearchSafe | src/main/java/grep/Pattern.java:73-132 | a pattern without `\` and `[` compiles, and searching it never throws, whatever characters the text holds |
| MatchSemantics.AcceptsEach | src/main/java/grep/Pattern.java:119-132 | positions a window accepted predicate by predicate |
| MatchSemantics.ChainOccurs | src/main/java/grep/Pattern.java:98-143 | a chain occurs at `i` iff its predicates accept the window at `i` one by one |
| MatchSemantics.LiteralOccurs | src/main/java/grep/Pattern.java:119-132 | a pattern without `\` and `[` occurs at `i` iff the text holds the pattern there |
| MatchSemantics.ContainsAt | src/test/java/grep/PatternTest.java:33-34 | the text holds `e` at position `i` |
| MatchSemantics.LiteralSubstring | src/main/java/grep/Pattern.java:98-143 | a pattern without `\` and `[` matches iff the text contains it as a substring |
| Matchers.Matcher.constructor | src/main/java/grep/Matcher.java:14-22 | allocates capture arrays of length `groupCount + 1`, then resets: `first == -1`, `last == 0`, the region is the whole text |
| Matchers.Matcher.Allocated | src/main/java/grep/Matcher.java:14-22 | the pattern is a compiled chain and both capture arrays have `groupCount + 1` zero entries |
| Matchers.Matcher.Valid | src/main/java/grep/Matcher.java:24-32 | between calls the search region is the whole text, as `reset` leaves it |
| Matchers.Matcher.Reset | src/main/java/grep/Matcher.java:24-32 | `first = -1`, `last = 0`, `from = 0`, `to = |text|`; returns the matcher; the capture arrays are untouched |
| Matchers.Matcher.Find | src/main/java/grep/Matcher.java:34-37 | the result is whether a match exists from `from`, independent of earlier searches; on success `from <= first <= last <= |text|`, `first` is the leftmost match and `last - first` is the number of atoms; on failure `first == -1`, `last == 0` and `hitEnd` is set |
| Matchers.Matcher.Search | src/main/java/grep/Matcher.java:54-63 | clears `hitEnd`, runs the root; on failure `first = -1`, `last` is unchanged and `hitEnd` ends true; on success the leftmost match is recorded |
| Matchers.Matcher.Group | src/main/java/grep/Matcher.java:43-48 | `text[groupStarts[i]..groupEnds[i]]`, which is empty because nothing writes the capture arrays |
| Matchers.Matcher.GroupWhole | src/main/java/grep/Matcher.java:39-41 | `group()` is `group(0)`, the empty string |
| Matchers.Matcher.GroupCount | src/main/java/grep/Matcher.java:50-52 | the pattern's group count, one less than the length of each capture array |
| Matchers.StartMatch | src/main/java/grep/Pattern.java:98-109 | returns true iff some start in `[index, to]` succeeds and stores the smallest in `first`, with `last` its end; otherwise sets `hitEnd` and leaves `first` and `last` alone |
| Matchers.NodeMatch | src/main/java/grep/Pattern.java:101-126 | dispatches to the node's `match`: the result is `MatchesFrom`, `last` is set on success, `hitEnd` is set iff the attempt runs out of text |
| Matchers.CharPropertyMatch | src/main/java/grep/Pattern.java:119-132 | true iff `index < to`, the predicate accepts `text[index]` and the rest matches at `index + 1`; `hitEnd` is set only at the end of the text, and a rejected character leaves it alone |
| Matchers.LastMatch | src/main/java/grep/Pattern.java:140-143 | always succeeds and stores its index in `last` |
| Matchers.CompileAndFind | src/test/java/grep/PatternTest.java:385-390 | `compile(e).matcher(text).find(0)`, for any text on which the search makes no table test throw, is the exception of `compile`, or whether the atoms occur somewhere in the text |
| PatternExamples.Finds | src/test/java/grep/PatternTest.java:385-390 | the outcome of a test case: `None` where `compile` throws or the search makes a table test throw |
| PatternExamples.LiteralCharacters | src/test/java/grep/PatternTest.java:33-34 | `d` is found in "dog" and `f` is not |
| PatternExamples.Digits | src/test/java/grep/PatternTest.java:44-47 | `\d` finds "3" and "foo101", but not "c" or "Art" |
| PatternExamples.Words | src/test/java/grep/PatternTest.java:57-59 | `\w` finds "alpha_num3ric" and "foo101", but not "$!?" |
| PatternExamples.ContinueLiterals | src/main/java/grep/Pattern.java:73-76 | a metacharacter-free tail adds one literal per character |
| PatternExamples.DigitThenWord | src/main/java/grep/Pattern.java:21-82 | `\d apple` compiles to the digit class followed by the six literals |
| PatternExamples.DigitThenWordTail | src/main/java/grep/Pattern.java:73-76 | the tail " apple" gives six literals |
| PatternExamples.AppleAccepted | src/test/java/grep/PatternTest.java:93 | the atoms of `\d apple` accept "1 apple" |
| PatternExamples.DigitThenWordFound | src/test/java/grep/PatternTest.java:93 | `\d apple` is found in "1 apple" |
| PatternExamples.OrangeRejected | src/test/java/grep/PatternTest.java:94 | no window of "1 orange" passes the atoms of `\d apple` |
| PatternExamples.DigitThenWordMissing | src/test/java/grep/PatternTest.java:94 | `\d apple` is not found in "1 orange" |
| PatternExamples.MembersRender | src/main/java/grep/Pattern.java:56-57 | literal members render back to their characters |
| PatternExamples.MemberSet | src/main/java/grep/Pattern.java:40-70 | a closed set of literal members compiles to one predicate that admits exactly the members below 256 and never throws there |
| PatternExamples.SingleAtomFinds | src/main/java/grep/Pattern.java:98-132 | a one-atom pattern is found iff some character of the text passes the atom, unless the search throws first, which gives `None` |
| PatternExamples.GroupFound | src/main/java/grep/Pattern.java:40-132 | a set is found in a text of characters below 256 that holds one of its members |
| PatternExamples.GroupMissing | src/main/java/grep/Pattern.java:40-132 | a set is not found in a text of characters below 256 that holds none of its members |
| PatternExamples.WideCharacterThrows | src/main/java/grep/Pattern.java:221-224 | `[a]` over "Āa": the table test of code 256 throws before `a` is reached, so `find(0)` throws |
| PatternExamples.GroupInAppleAndCab | src/test/java/grep/PatternTest.java:69-70 | `[abc]` is found in "apple" and in "cab" |
| PatternExamples.GroupNotInDog | src/test/java/grep/PatternTest.java:71 | `[abc]` is not found in "dog" |
| PatternExamples.DigitGroupInMixed | src/test/java/grep/PatternTest.java:72 | `[123]` is found in "a1b2c3" |
| PatternExamples.CaretIsAMember | src/test/java/grep/PatternTest.java:82-83 | `[^abc]` is found in "cat" and in "cab": `^` is a member, not a negation |
| PatternExamples.Errors | src/main/java/grep/Pattern.java:33-52 | `\x` throws UnknownCharacterClass('x'); `a\` and `[a\` throw StringIndexOutOfBounds at the pattern's length |

## Left out

- Main.java (option parsing, reading standard input and files, directory recursion, printing, exit codes) is not part of this model: it is I/O around the core.
- Negated sets, `.`, anchors, groups, alternation, quantifiers and backreferences are not modelled, because `compile` does not implement them. The test cases that rely on them, and the longer `\d\d\d apples` and `\d \w\w\ws` cases, are not stated as examples.
- CharPredicates.AsciiArrayClass.Add: requires a character below the table length instead of throwing ArrayIndexOutOfBoundsException. `Compile` checks the code first and returns `ArrayIndexOutOfBounds` with that code, before it calls `Add`.
- CharPredicates.Test: requires that no table is indexed out of range (`!Faults`) instead of modelling the exception that `test` then throws.
- Matchers.StartMatch, Matchers.NodeMatch, Matchers.CharPropertyMatch, Matchers.Matcher.Find, Matchers.Matcher.Search, Matchers.CompileAndFind: require that no predicate on the executed path throws (`SafeFrom`/`SafeStart`). `CompiledSearchSafe` shows this always holds for compiled patterns and texts of characters below 256, and `LiteralSearchSafe` for patterns without `\` and `[` over any text.
- Matchers.Matcher.Find, Matchers.Matcher.Search: require `from >= 0`. In Java a negative `from` reads before the text and throws, except with the empty pattern, which matches at the negative index.
- Matchers.Matcher.Group: requires an index within the capture arrays instead of throwing ArrayIndexOutOfBoundsException.
- Patterns.Compile: the compiled bracket predicate holds a copy of the table contents, not a reference to the `AsciiArrayClass` object. Nothing writes the table after `compile`, so no behaviour depends on the difference.
- Patterns.Compile: the node graph is an indexed list linked by position rather than objects linked by reference. `Pattern.matcher` is modelled by the `Matcher` constructor.
- Matchers.CharPropertyMatch: drops the second check `index <= matcher.to` after `++index`, which always holds there.
- Text is a sequence of Dafny `char` values, which are Unicode scalar values, not Java's UTF-16 code units. For text inside the Basic Multilingual Plane (up to U+FFFF, surrogates excluded) the two agree. A character above U+FFFF is one `char` here but two Java `char`s: `compile("😀")` builds two `CharProperty` nodes in Java and one in the model, so node counts, `first`, `last` and the length of a match differ for such text, and `[😀]` throws ArrayIndexOutOfBounds with 55357 in Java but with 128512 in the model. Lone surrogates, which a Java string can hold, cannot be written as Dafny `char`s. Whether `find` succeeds is the same in both: a literal above U+FFFF matches its whole surrogate pair in Java and its one `char` in the model, `\d` and `\w` reject every code from 128 up in both, and a table throws on every code from 256 up in both.
- The capture arrays are never written, so `Group` always returns the empty string; no capture writing is modelled.
