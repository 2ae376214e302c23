/**
 * What `Pattern.compile` reads a pattern as, stated as values: the pattern
 * is split into top-level atoms (tokens), and each token becomes one
 * character predicate. The scan in `Patterns.Compile` is proved to produce
 * exactly `CompileSpec`.
 */
module PatternSyntax {
  import opened Wrappers
  import opened CharPredicates

  /** The exceptions `compile` can throw. */
  datatype CompileError =
      /** IllegalArgumentException from `fromIdentifier`: `\x` with `x` neither `d` nor `w`. */
    | UnknownCharacterClass(identifier: char)
      /** StringIndexOutOfBoundsException: `charAt` past the end after a lone `\`. */
    | StringIndexOutOfBounds(index: nat)
      /** ArrayIndexOutOfBoundsException: `add` of a bracket member whose code is 256 or more. */
    | ArrayIndexOutOfBounds(index: nat)

  /** One entry between `[` and `]`: a literal member, or the escape `\x`. */
  datatype Item = Member(c: char) | Class(identifier: char)

  /** One top-level atom: a literal, an escape `\x`, or a bracket set, closed or not. */
  datatype Token = Literal(c: char) | Escape(identifier: char) | Set(items: seq<Item>, closed: bool)

  /** A pattern split into atoms; `dangling` when it ends with a lone `\` (at top level or in a set). */
  datatype Lexed = Lexed(tokens: seq<Token>, dangling: bool)

  /** The scan of a bracket body: its items, whether a `]` ended it, and what follows it. */
  datatype SetScan = SetScan(items: seq<Item>, closed: bool, dangling: bool, rest: string)

  /** The inner loop of `compile`: reads items up to the first `]`, or to the end of the pattern. */
  function ScanSet(s: string): (r: SetScan)
    decreases |s|
    ensures |r.rest| <= |s|
    ensures !r.closed ==> r.rest == []
    ensures r.dangling ==> !r.closed
  {
    if s == [] then SetScan([], false, false, [])
    else if s[0] == ']' then SetScan([], true, false, s[1..])
    else if s[0] == '\\' then
      if |s| == 1 then SetScan([], false, true, [])
      else PrependItem(Class(s[1]), ScanSet(s[2..]))
    else PrependItem(Member(s[0]), ScanSet(s[1..]))
  }

  function PrependItem(item: Item, b: SetScan): SetScan {
    SetScan([item] + b.items, b.closed, b.dangling, b.rest)
  }

  function Cons(t: Token, l: Lexed): Lexed {
    Lexed([t] + l.tokens, l.dangling)
  }

  /** The outer loop of `compile`, reading one atom at a time. */
  function Lex(s: string): Lexed
    decreases |s|
  {
    if s == [] then Lexed([], false)
    else if s[0] == '\\' then
      if |s| == 1 then Lexed([], true) else Cons(Escape(s[1]), Lex(s[2..]))
    else if s[0] == '[' then
      var b := ScanSet(s[1..]);
      if b.dangling then Lexed([Set(b.items, false)], true)
      else Cons(Set(b.items, b.closed), Lex(b.rest))
    else Cons(Literal(s[0]), Lex(s[1..]))
  }

  /* Rendering atoms back to pattern text: the inverse of `Lex`. */

  function RenderItem(item: Item): string {
    match item
    case Member(c) => [c]
    case Class(identifier) => ['\\', identifier]
  }

  function RenderItems(items: seq<Item>): string {
    if items == [] then "" else RenderItem(items[0]) + RenderItems(items[1..])
  }

  function RenderToken(t: Token): string {
    match t
    case Literal(c) => [c]
    case Escape(identifier) => ['\\', identifier]
    case Set(items, closed) => "[" + RenderItems(items) + (if closed then "]" else "")
  }

  function RenderTokens(ts: seq<Token>): string {
    if ts == [] then "" else RenderToken(ts[0]) + RenderTokens(ts[1..])
  }

  function Render(l: Lexed): string {
    RenderTokens(l.tokens) + (if l.dangling then "\\" else "")
  }

  function RenderScan(b: SetScan): string {
    RenderItems(b.items) + (if b.closed then "]" else "") + (if b.dangling then "\\" else "") + b.rest
  }

  lemma RenderScanPrepend(item: Item, b: SetScan)
    ensures RenderScan(PrependItem(item, b)) == RenderItem(item) + RenderScan(b)
  {
    assert ([item] + b.items)[1..] == b.items;
  }

  lemma {:induction false} ScanSetRender(s: string)
    ensures RenderScan(ScanSet(s)) == s
    ensures ScanSet(s).dangling ==> ScanSet(s).rest == []
    decreases |s|
  {
    if s == [] {
    } else if s[0] == ']' {
      assert s == "]" + s[1..];
    } else if s[0] == '\\' {
      if |s| > 1 {
        ScanSetRender(s[2..]);
        RenderScanPrepend(Class(s[1]), ScanSet(s[2..]));
        assert s == ['\\', s[1]] + s[2..];
      }
    } else {
      ScanSetRender(s[1..]);
      RenderScanPrepend(Member(s[0]), ScanSet(s[1..]));
      assert s == [s[0]] + s[1..];
    }
  }

  lemma RenderTokensCons(t: Token, ts: seq<Token>)
    ensures RenderTokens([t] + ts) == RenderToken(t) + RenderTokens(ts)
  {
    assert ([t] + ts)[1..] == ts;
  }

  /** A bracket atom that ends with a lone `\` renders back to the pattern it came from. */
  lemma LexRenderDanglingSet(s: string)
    requires s != [] && s[0] == '[' && ScanSet(s[1..]).dangling
    ensures Render(Lex(s)) == s
  {
    var b := ScanSet(s[1..]);
    ScanSetRender(s[1..]);
    var t := Set(b.items, false);
    assert Lex(s) == Lexed([t], true);
    RenderTokensCons(t, []);
    assert [t] + [] == [t];
    assert RenderTokens([t]) == "[" + RenderItems(b.items) + "";
    assert s[1..] == RenderItems(b.items) + "\\";
    assert s == "[" + s[1..];
  }

  /** One atom followed by text that renders back renders back as a whole. */
  lemma RenderCons(t: Token, l: Lexed, head: string, rest: string)
    requires RenderToken(t) == head && Render(l) == rest
    ensures Render(Cons(t, l)) == head + rest
  {
    RenderTokensCons(t, l.tokens);
  }

  lemma LexRenderEscape(s: string)
    requires |s| > 1 && s[0] == '\\' && Render(Lex(s[2..])) == s[2..]
    ensures Render(Lex(s)) == s
  {
    assert Lex(s) == Cons(Escape(s[1]), Lex(s[2..]));
    RenderCons(Escape(s[1]), Lex(s[2..]), ['\\', s[1]], s[2..]);
    assert s == ['\\', s[1]] + s[2..];
  }

  lemma LexRenderSet(s: string)
    requires s != [] && s[0] == '[' && !ScanSet(s[1..]).dangling
    requires Render(Lex(ScanSet(s[1..]).rest)) == ScanSet(s[1..]).rest
    ensures Render(Lex(s)) == s
  {
    var b := ScanSet(s[1..]);
    var t := Set(b.items, b.closed);
    assert Lex(s) == Cons(t, Lex(b.rest));
    assert RenderToken(t) + b.rest == s by {
      SetBodyRender(s);
    }
    RenderCons(t, Lex(b.rest), RenderToken(t), b.rest);
  }

  /** A bracket atom followed by the rest of the pattern is the pattern. */
  lemma SetBodyRender(s: string)
    requires s != [] && s[0] == '[' && !ScanSet(s[1..]).dangling
    ensures RenderToken(Set(ScanSet(s[1..]).items, ScanSet(s[1..]).closed)) + ScanSet(s[1..]).rest == s
  {
    var body := s[1..];
    var b := ScanSet(body);
    ScanSetRender(body);
    var close: string := if b.closed then "]" else "";
    var items := RenderItems(b.items);
    assert body == items + close + b.rest by {
      assert RenderScan(b) == items + close + "" + b.rest;
    }
    assert RenderToken(Set(b.items, b.closed)) == "[" + items + close;
    assert s == "[" + body;
  }

  lemma LexRenderLiteral(s: string)
    requires s != [] && s[0] != '\\' && s[0] != '[' && Render(Lex(s[1..])) == s[1..]
    ensures Render(Lex(s)) == s
  {
    assert Lex(s) == Cons(Literal(s[0]), Lex(s[1..]));
    RenderCons(Literal(s[0]), Lex(s[1..]), [s[0]], s[1..]);
    assert s == [s[0]] + s[1..];
  }

  /** Every pattern is the concatenation of the atoms `compile` reads it as. */
  lemma {:induction false} LexRender(s: string)
    ensures Render(Lex(s)) == s
    decreases |s|
  {
    if s == [] {
    } else if s[0] == '\\' {
      if |s| > 1 {
        LexRender(s[2..]);
        LexRenderEscape(s);
      }
    } else if s[0] == '[' {
      if ScanSet(s[1..]).dangling {
        LexRenderDanglingSet(s);
      } else {
        LexRender(ScanSet(s[1..]).rest);
        LexRenderSet(s);
      }
    } else {
      LexRender(s[1..]);
      LexRenderLiteral(s);
    }
  }

  /* Well-formed atom lists: the ones `Lex` can produce. */

  predicate WellFormedItem(item: Item) {
    item.Member? ==> item.c != ']' && item.c != '\\'
  }

  predicate WellFormedToken(t: Token) {
    match t
    case Literal(c) => c != '\\' && c != '['
    case Escape(_) => true
    case Set(items, _) => forall i :: 0 <= i < |items| ==> WellFormedItem(items[i])
  }

  /** Each atom reads back as itself, and only the last atom may be an unclosed set. */
  predicate WellFormed(l: Lexed) {
    (forall k :: 0 <= k < |l.tokens| ==> WellFormedToken(l.tokens[k])) &&
    (forall k :: 0 <= k < |l.tokens| - 1 ==> !(l.tokens[k].Set? && !l.tokens[k].closed))
  }

  lemma {:induction false} ScanRenderedItems(items: seq<Item>, tail: string)
    requires forall i :: 0 <= i < |items| ==> WellFormedItem(items[i])
    requires tail == [] || tail[0] == ']' || tail == "\\"
    ensures tail == [] ==> ScanSet(RenderItems(items) + tail) == SetScan(items, false, false, [])
    ensures tail != [] && tail[0] == ']' ==> ScanSet(RenderItems(items) + tail) == SetScan(items, true, false, tail[1..])
    ensures tail == "\\" ==> ScanSet(RenderItems(items) + tail) == SetScan(items, false, true, [])
    decreases |items|
  {
    var s := RenderItems(items) + tail;
    if items != [] {
      ScanRenderedItems(items[1..], tail);
      assert items == [items[0]] + items[1..];
      match items[0]
      case Member(c) =>
        assert s == [c] + (RenderItems(items[1..]) + tail);
        assert s[1..] == RenderItems(items[1..]) + tail;
      case Class(identifier) =>
        assert s == ['\\', identifier] + (RenderItems(items[1..]) + tail);
        assert s[2..] == RenderItems(items[1..]) + tail;
    }
  }

  lemma WellFormedTail(l: Lexed)
    requires WellFormed(l) && l.tokens != []
    ensures WellFormed(Lexed(l.tokens[1..], l.dangling))
  {
    var l' := Lexed(l.tokens[1..], l.dangling);
    forall k | 0 <= k < |l'.tokens| ensures WellFormedToken(l'.tokens[k]) {
      assert l'.tokens[k] == l.tokens[k + 1];
    }
    forall k | 0 <= k < |l'.tokens| - 1 ensures !(l'.tokens[k].Set? && !l'.tokens[k].closed) {
      assert l'.tokens[k] == l.tokens[k + 1];
    }
  }

  lemma LexLiteralStep(c: char, rest: string)
    requires c != '\\' && c != '['
    ensures Lex([c] + rest) == Cons(Literal(c), Lex(rest))
  {
    var s := [c] + rest;
    assert s[0] == c && s[1..] == rest;
  }

  lemma LexEscapeStep(identifier: char, rest: string)
    ensures Lex(['\\', identifier] + rest) == Cons(Escape(identifier), Lex(rest))
  {
    var s := ['\\', identifier] + rest;
    assert s[0] == '\\' && s[1] == identifier && s[2..] == rest;
  }

  lemma LexSetStep(items: seq<Item>, rest: string)
    requires forall i :: 0 <= i < |items| ==> WellFormedItem(items[i])
    ensures Lex("[" + RenderItems(items) + "]" + rest) == Cons(Set(items, true), Lex(rest))
  {
    var s := "[" + RenderItems(items) + "]" + rest;
    assert s[0] == '[';
    ScanRenderedItems(items, "]" + rest);
    assert s[1..] == RenderItems(items) + ("]" + rest);
    assert ("]" + rest)[1..] == rest;
    assert ScanSet(s[1..]) == SetScan(items, true, false, rest);
  }

  /** A well-formed atom other than an unclosed set is read back as itself, whatever follows it. */
  lemma LexStep(t: Token, rest: string)
    requires WellFormedToken(t) && !(t.Set? && !t.closed)
    ensures Lex(RenderToken(t) + rest) == Cons(t, Lex(rest))
  {
    if t.Literal? {
      LexLiteralStep(t.c, rest);
    } else if t.Escape? {
      LexEscapeStep(t.identifier, rest);
    } else {
      LexSetStep(t.items, rest);
      assert RenderToken(t) + rest == "[" + RenderItems(t.items) + "]" + rest;
    }
  }

  /** An unclosed set is read back as itself, with the trailing lone `\` when there is one. */
  lemma LexUnclosedSet(items: seq<Item>, dangling: bool)
    requires WellFormedToken(Set(items, false))
    ensures Lex(RenderToken(Set(items, false)) + (if dangling then "\\" else "")) == Lexed([Set(items, false)], dangling)
  {
    var s := RenderToken(Set(items, false)) + (if dangling then "\\" else "");
    assert s[0] == '[';
    if dangling {
      ScanRenderedItems(items, "\\");
      assert s[1..] == RenderItems(items) + "\\";
    } else {
      ScanRenderedItems(items, []);
      assert s[1..] == RenderItems(items) + [];
    }
  }

  /** `Lex` reads every well-formed list of atoms back from its rendering. */
  lemma {:induction false} RenderLex(l: Lexed)
    requires WellFormed(l)
    ensures Lex(Render(l)) == l
    decreases |l.tokens|
  {
    if l.tokens == [] {
      if l.dangling {
        assert Render(l) == "\\";
      }
    } else {
      var t := l.tokens[0];
      var l' := Lexed(l.tokens[1..], l.dangling);
      assert l.tokens == [t] + l'.tokens;
      RenderTokensCons(t, l'.tokens);
      assert Render(l) == RenderToken(t) + Render(l');
      assert WellFormedToken(t);
      if t.Set? && !t.closed {
        assert l'.tokens == [];
        assert l.tokens == [t];
        assert Render(l') == (if l.dangling then "\\" else "");
        assert t == Set(t.items, false);
        LexUnclosedSet(t.items, l.dangling);
      } else {
        WellFormedTail(l);
        RenderLex(l');
        LexStep(t, Render(l'));
      }
    }
  }

  /* Translation of atoms into character predicates. */

  /** The state of the bracket loop: the `AsciiArrayClass` table and the list `ranges`. */
  datatype SetParts = SetParts(table: seq<bool>, ranges: seq<CharacterRangeClass>)

  /** `n` entries, all false. */
  function Falses(n: nat): (r: seq<bool>)
    ensures |r| == n && forall j :: 0 <= j < n ==> !r[j]
  {
    if n == 0 then [] else Falses(n - 1) + [false]
  }

  /** The contents of `new AsciiArrayClass()`. */
  const EmptyTable: seq<bool> := Falses(256)

  /** Processes the items of a set in order: `add` for a member, `ranges.add` for an escape. */
  function TranslateItems(items: seq<Item>, parts: SetParts): Result<SetParts, CompileError>
    decreases |items|
  {
    if items == [] then Ok(parts)
    else if items[0].Member? then
      if items[0].c as int < |parts.table| then
        TranslateItems(items[1..], SetParts(parts.table[items[0].c as int := true], parts.ranges))
      else Err(ArrayIndexOutOfBounds(items[0].c as int))
    else if RangeClassOf(items[0].identifier).None? then Err(UnknownCharacterClass(items[0].identifier))
    else TranslateItems(items[1..], SetParts(parts.table, parts.ranges + [RangeClassOf(items[0].identifier).value]))
  }

  function RangePredicates(ranges: seq<CharacterRangeClass>): (r: seq<CharPredicate>)
    ensures |r| == |ranges| && forall i :: 0 <= i < |ranges| ==> r[i] == Range(ranges[i])
  {
    if ranges == [] then [] else [Range(ranges[0])] + RangePredicates(ranges[1..])
  }

  /** The table alone when no class was embedded, otherwise the `OrCharPredicate` of the table and the classes. */
  function SetPredicate(parts: SetParts): CharPredicate {
    if parts.ranges == [] then AsciiArray(parts.table)
    else Or([AsciiArray(parts.table)] + RangePredicates(parts.ranges))
  }

  function TranslateToken(t: Token): Result<CharPredicate, CompileError> {
    if t.Literal? then Ok(Ascii(t.c))
    else if t.Escape? then
      if RangeClassOf(t.identifier).None? then Err(UnknownCharacterClass(t.identifier))
      else Ok(Range(RangeClassOf(t.identifier).value))
    else SetResult(TranslateItems(t.items, SetParts(EmptyTable, [])))
  }

  function SetResult(r: Result<SetParts, CompileError>): Result<CharPredicate, CompileError> {
    if r.Err? then Err(r.error) else Ok(SetPredicate(r.value))
  }

  /** Translates the atoms in order; the first failing atom decides the error. */
  function TranslateTokens(ts: seq<Token>): Result<seq<CharPredicate>, CompileError>
    decreases |ts|
  {
    if ts == [] then Ok([])
    else
      match TranslateToken(ts[0])
      case Err(e) => Err(e)
      case Ok(p) =>
        match TranslateTokens(ts[1..])
        case Err(e) => Err(e)
        case Ok(ps) => Ok([p] + ps)
  }

  /**
   * The result of `compile(e)`: the predicates of the chain between `Start`
   * and `Last`, or the exception it throws.
   */
  function CompileSpec(e: string): Result<seq<CharPredicate>, CompileError> {
    var l := Lex(e);
    match TranslateTokens(l.tokens)
    case Err(x) => Err(x)
    case Ok(ps) => if l.dangling then Err(StringIndexOutOfBounds(|e|)) else Ok(ps)
  }

  /* Properties of the translation. */

  /**
   * Translating a list of atoms succeeds iff every atom translates, and then
   * yields one predicate per atom, in order; otherwise the error is that of
   * the first atom that fails.
   */
  lemma {:induction false} TranslateTokensPointwise(ts: seq<Token>)
    ensures TranslateTokens(ts).Ok? <==> forall k :: 0 <= k < |ts| ==> TranslateToken(ts[k]).Ok?
    ensures TranslateTokens(ts).Ok? ==>
      |TranslateTokens(ts).value| == |ts| &&
      forall k :: 0 <= k < |ts| ==> TranslateToken(ts[k]) == Ok(TranslateTokens(ts).value[k])
    ensures TranslateTokens(ts).Err? ==>
      exists k :: 0 <= k < |ts| && TranslateToken(ts[k]) == Err(TranslateTokens(ts).error) &&
        forall j :: 0 <= j < k ==> TranslateToken(ts[j]).Ok?
    decreases |ts|
  {
    if ts != [] {
      TranslateTokensPointwise(ts[1..]);
      if TranslateToken(ts[0]).Err? {
        assert TranslateToken(ts[0]) == Err(TranslateTokens(ts).error);
      } else if TranslateTokens(ts[1..]).Err? {
        var k :| 0 <= k < |ts[1..]| && TranslateToken(ts[1..][k]) == Err(TranslateTokens(ts[1..]).error) &&
          forall j :: 0 <= j < k ==> TranslateToken(ts[1..][j]).Ok?;
        assert TranslateToken(ts[k + 1]) == Err(TranslateTokens(ts).error);
        forall j | 0 <= j < k + 1 ensures TranslateToken(ts[j]).Ok? {
          if j > 0 {
            assert ts[j] == ts[1..][j - 1];
          }
        }
      } else {
        forall k | 0 <= k < |ts| ensures TranslateToken(ts[k]) == Ok(TranslateTokens(ts).value[k]) {
          if k > 0 {
            assert ts[k] == ts[1..][k - 1];
          }
        }
      }
    }
  }

  /**
   * `compile` yields exactly one predicate per top-level atom of the
   * pattern, in source order: on success the pattern is the concatenation
   * of the atoms, and predicate `k` is the translation of atom `k`.
   */
  lemma OnePredicatePerAtom(e: string)
    ensures CompileSpec(e).Ok? ==>
      var l := Lex(e);
      !l.dangling && RenderTokens(l.tokens) == e &&
      |CompileSpec(e).value| == |l.tokens| &&
      forall k :: 0 <= k < |l.tokens| ==> TranslateToken(l.tokens[k]) == Ok(CompileSpec(e).value[k])
    ensures CompileSpec(e).Err? <==>
      Lex(e).dangling || exists k :: 0 <= k < |Lex(e).tokens| && TranslateToken(Lex(e).tokens[k]).Err?
  {
    LexRender(e);
    TranslateTokensPointwise(Lex(e).tokens);
  }

  /** `\d` and `\w` give the digit and word classes; every other escape letter is an error. */
  lemma EscapeTranslation(identifier: char)
    ensures identifier == 'd' ==> TranslateToken(Escape(identifier)) == Ok(Range(DIGITS))
    ensures identifier == 'w' ==> TranslateToken(Escape(identifier)) == Ok(Range(WORDS))
    ensures identifier != 'd' && identifier != 'w' ==>
      TranslateToken(Escape(identifier)) == Err(UnknownCharacterClass(identifier))
  {
  }

  /** Whether a set item admits `c`: a member by equality, an escape by its class. */
  predicate ItemAccepts(item: Item, c: char) {
    if item.Member? then item.c == c
    else RangeClassOf(item.identifier).Some? && RangeClassOf(item.identifier).value.Test(c)
  }

  /** Whether `add` or `fromIdentifier` accepts the item without throwing. */
  predicate ItemValid(item: Item) {
    if item.Member? then item.c as int < 256 else RangeClassOf(item.identifier).Some?
  }

  predicate RangesAccept(ranges: seq<CharacterRangeClass>, c: char) {
    exists i :: 0 <= i < |ranges| && ranges[i].Test(c)
  }

  /** Whether some member of the set has code `j`. */
  predicate HasMember(items: seq<Item>, j: int) {
    exists k :: 0 <= k < |items| && items[k].Member? && items[k].c as int == j
  }

  /** The classes of the escapes of a set, in order (unknown letters left out). */
  function Classes(items: seq<Item>): seq<CharacterRangeClass> {
    if items == [] then []
    else if items[0].Class? && RangeClassOf(items[0].identifier).Some? then
      [RangeClassOf(items[0].identifier).value] + Classes(items[1..])
    else Classes(items[1..])
  }

  /** The error `add` or `fromIdentifier` throws for an invalid item. */
  function ItemError(item: Item): CompileError {
    if item.Member? then ArrayIndexOutOfBounds(item.c as int) else UnknownCharacterClass(item.identifier)
  }

  /** The bracket loop succeeds iff every item is valid. */
  lemma {:induction false} TranslateItemsOk(items: seq<Item>, parts: SetParts)
    requires |parts.table| == 256
    ensures TranslateItems(items, parts).Ok? <==> forall k :: 0 <= k < |items| ==> ItemValid(items[k])
    decreases |items|
  {
    if items != [] {
      var rest := items[1..];
      assert forall k :: 1 <= k < |items| ==> items[k] == rest[k - 1];
      if items[0].Member? {
        if items[0].c as int < 256 {
          TranslateItemsOk(rest, SetParts(parts.table[items[0].c as int := true], parts.ranges));
        }
      } else if RangeClassOf(items[0].identifier).Some? {
        TranslateItemsOk(rest, SetParts(parts.table, parts.ranges + [RangeClassOf(items[0].identifier).value]));
      }
    }
  }

  /** When the bracket loop fails, it fails with the error of the first invalid item. */
  lemma {:induction false} TranslateItemsError(items: seq<Item>, parts: SetParts)
    requires |parts.table| == 256
    ensures TranslateItems(items, parts).Err? ==>
      exists k :: 0 <= k < |items| && !ItemValid(items[k]) &&
        (forall j :: 0 <= j < k ==> ItemValid(items[j])) &&
        TranslateItems(items, parts).error == ItemError(items[k])
    decreases |items|
  {
    if items != [] && ItemValid(items[0]) {
      var rest := items[1..];
      var next := if items[0].Member? then SetParts(parts.table[items[0].c as int := true], parts.ranges)
        else SetParts(parts.table, parts.ranges + [RangeClassOf(items[0].identifier).value]);
      assert TranslateItems(items, parts) == TranslateItems(rest, next);
      TranslateItemsError(rest, next);
      if TranslateItems(rest, next).Err? {
        var k :| 0 <= k < |rest| && !ItemValid(rest[k]) && (forall j :: 0 <= j < k ==> ItemValid(rest[j])) &&
          TranslateItems(rest, next).error == ItemError(rest[k]);
        assert items[k + 1] == rest[k];
        assert forall j :: 1 <= j < k + 1 ==> items[j] == rest[j - 1];
      }
    }
  }

  /**
   * On success, entry `j` of the table is set iff it was set before or some
   * member has code `j`, and the classes of the escapes are appended in order.
   */
  lemma {:induction false} TranslateItemsValue(items: seq<Item>, parts: SetParts)
    ensures TranslateItems(items, parts).Ok? ==>
      var r := TranslateItems(items, parts).value;
      |r.table| == |parts.table| && r.ranges == parts.ranges + Classes(items) &&
      forall j :: 0 <= j < |r.table| ==> (r.table[j] <==> parts.table[j] || HasMember(items, j))
    decreases |items|
  {
    if items != [] && TranslateItems(items, parts).Ok? {
      var rest := items[1..];
      assert forall k :: 1 <= k < |items| ==> items[k] == rest[k - 1];
      if items[0].Member? {
        var m := items[0].c as int;
        var next := SetParts(parts.table[m := true], parts.ranges);
        TranslateItemsValue(rest, next);
        forall j | 0 <= j < |parts.table| ensures HasMember(items, j) <==> j == m || HasMember(rest, j) {
          if HasMember(rest, j) {
            var k :| 0 <= k < |rest| && rest[k].Member? && rest[k].c as int == j;
            assert items[k + 1] == rest[k];
          }
        }
      } else {
        var next := SetParts(parts.table, parts.ranges + [RangeClassOf(items[0].identifier).value]);
        TranslateItemsValue(rest, next);
        assert next.ranges + Classes(rest) == parts.ranges + Classes(items);
        forall j | 0 <= j < |parts.table| ensures HasMember(items, j) <==> HasMember(rest, j) {
          if HasMember(rest, j) {
            var k :| 0 <= k < |rest| && rest[k].Member? && rest[k].c as int == j;
            assert items[k + 1] == rest[k];
          }
        }
      }
    }
  }

  /**
   * The classes of a valid set: none iff every item is a member, and a
   * character is in one of them iff some escape of the set admits it.
   */
  lemma {:induction false} ClassesSpec(items: seq<Item>, c: char)
    requires forall k :: 0 <= k < |items| ==> ItemValid(items[k])
    ensures Classes(items) == [] <==> forall k :: 0 <= k < |items| ==> items[k].Member?
    ensures RangesAccept(Classes(items), c) <==> exists k :: 0 <= k < |items| && items[k].Class? && ItemAccepts(items[k], c)
    decreases |items|
  {
    if items != [] {
      var rest := items[1..];
      assert forall k :: 1 <= k < |items| ==> items[k] == rest[k - 1];
      ClassesSpec(rest, c);
      if items[0].Class? {
        var kc := RangeClassOf(items[0].identifier).value;
        var cs := Classes(items);
        assert cs == [kc] + Classes(rest);
        if RangesAccept(cs, c) {
          var i :| 0 <= i < |cs| && cs[i].Test(c);
          if i > 0 {
            assert Classes(rest)[i - 1].Test(c);
          }
        }
        if exists k :: 0 <= k < |items| && items[k].Class? && ItemAccepts(items[k], c) {
          var k :| 0 <= k < |items| && items[k].Class? && ItemAccepts(items[k], c);
          if k > 0 {
            assert rest[k - 1].Class? && ItemAccepts(rest[k - 1], c);
            var i :| 0 <= i < |Classes(rest)| && Classes(rest)[i].Test(c);
            assert cs[i + 1].Test(c);
          } else {
            assert cs[0].Test(c);
          }
        }
      } else {
        if exists k :: 0 <= k < |items| && items[k].Class? && ItemAccepts(items[k], c) {
          var k :| 0 <= k < |items| && items[k].Class? && ItemAccepts(items[k], c);
          assert rest[k - 1].Class? && ItemAccepts(rest[k - 1], c);
        }
      }
    }
  }

  /**
   * The predicate built from the bracket loop's state admits `c` iff the
   * table has it or one of the classes does; it throws for codes beyond the
   * table.
   */
  lemma SetPredicateSpec(parts: SetParts, c: char)
    ensures c as int < |parts.table| ==>
      !Faults(SetPredicate(parts), c) &&
      (Accepts(SetPredicate(parts), c) <==> parts.table[c as int] || RangesAccept(parts.ranges, c))
    ensures c as int >= |parts.table| ==> Faults(SetPredicate(parts), c)
    ensures SetPredicate(parts).AsciiArray? <==> parts.ranges == []
  {
    if parts.ranges != [] {
      var p := SetPredicate(parts);
      var children := [AsciiArray(parts.table)] + RangePredicates(parts.ranges);
      assert p == Or(children);
      assert Faults(children[0], c) <==> c as int >= |parts.table|;
      if c as int < |parts.table| {
        if RangesAccept(parts.ranges, c) {
          var i :| 0 <= i < |parts.ranges| && parts.ranges[i].Test(c);
          assert children[i + 1] == Range(parts.ranges[i]);
        }
        if Accepts(p, c) {
          var i :| 0 <= i < |children| && Accepts(children[i], c);
          if i > 0 {
            assert children[i] == Range(parts.ranges[i - 1]);
          }
        }
        forall i | 0 <= i < |children| ensures !Faults(children[i], c) {
          if i > 0 {
            assert children[i] == Range(parts.ranges[i - 1]);
          }
        }
      }
    }
  }

  /**
   * A bracket atom accepts exactly the characters read before its first `]`
   * (members as themselves, `\d`/`\w` as their classes); it is the table
   * alone iff no escape occurs, otherwise the union of the table and the
   * classes; a character code of 256 or more makes its test throw.
   */
  lemma SetTranslation(items: seq<Item>, closed: bool)
    ensures TranslateToken(Set(items, closed)).Ok? <==> forall k :: 0 <= k < |items| ==> ItemValid(items[k])
    ensures TranslateToken(Set(items, closed)).Ok? ==>
      var p := TranslateToken(Set(items, closed)).value;
      (p.AsciiArray? <==> forall k :: 0 <= k < |items| ==> items[k].Member?) &&
      (forall c: char :: c as int < 256 ==>
        !Faults(p, c) && (Accepts(p, c) <==> exists k :: 0 <= k < |items| && ItemAccepts(items[k], c))) &&
      (forall c: char :: c as int >= 256 ==> Faults(p, c))
  {
    var empty := SetParts(EmptyTable, []);
    TranslateItemsOk(items, empty);
    TranslateItemsValue(items, empty);
    if TranslateItems(items, empty).Ok? {
      var r := TranslateItems(items, empty).value;
      assert r.ranges == Classes(items);
      var p := SetPredicate(r);
      ClassesSpec(items, ' ');
      SetPredicateSpec(r, ' ');
      forall c: char | c as int < 256
        ensures !Faults(p, c) && (Accepts(p, c) <==> exists k :: 0 <= k < |items| && ItemAccepts(items[k], c))
      {
        ClassesSpec(items, c);
        SetPredicateSpec(r, c);
        assert !EmptyTable[c as int];
        assert r.table[c as int] <==> HasMember(items, c as int);
        if HasMember(items, c as int) {
          var k :| 0 <= k < |items| && items[k].Member? && items[k].c as int == c as int;
          assert ItemAccepts(items[k], c);
        }
        if exists k :: 0 <= k < |items| && ItemAccepts(items[k], c) {
          var k :| 0 <= k < |items| && ItemAccepts(items[k], c);
          if items[k].Member? {
            assert HasMember(items, c as int);
          }
        }
      }
      forall c: char | c as int >= 256 ensures Faults(p, c) {
        SetPredicateSpec(r, c);
      }
    }
  }

  /** One `AsciiClass` per character of `e`. */
  function Literals(e: string): (r: seq<CharPredicate>)
    ensures |r| == |e| && forall i :: 0 <= i < |e| ==> r[i] == Ascii(e[i])
  {
    if e == [] then [] else [Ascii(e[0])] + Literals(e[1..])
  }

  function LiteralTokens(e: string): (r: seq<Token>)
    ensures |r| == |e| && forall i :: 0 <= i < |e| ==> r[i] == Literal(e[i])
  {
    if e == [] then [] else [Literal(e[0])] + LiteralTokens(e[1..])
  }

  /** A pattern free of `\` and `[` lexes into one literal per character. */
  lemma {:induction false} LexLiteral(e: string)
    requires forall i :: 0 <= i < |e| ==> e[i] != '\\' && e[i] != '['
    ensures Lex(e) == Lexed(LiteralTokens(e), false)
    decreases |e|
  {
    if e != [] {
      LexLiteral(e[1..]);
    }
  }

  /** A pattern free of `\` and `[` compiles to one literal predicate per character. */
  lemma LiteralPattern(e: string)
    requires forall i :: 0 <= i < |e| ==> e[i] != '\\' && e[i] != '['
    ensures CompileSpec(e) == Ok(Literals(e))
  {
    LexLiteral(e);
    var ts := Lex(e).tokens;
    TranslateTokensPointwise(ts);
    assert forall k :: 0 <= k < |ts| ==> TranslateToken(ts[k]).Ok?;
    var ps := TranslateTokens(ts).value;
    assert ps == Literals(e) by {
      forall k | 0 <= k < |e| ensures ps[k] == Ascii(e[k]) {
        assert TranslateToken(ts[k]) == Ok(ps[k]);
      }
    }
  }
}
