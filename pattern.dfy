/**
 * The node graph of Pattern.java and `Pattern.compile`, which builds it.
 *
 * The nodes of a pattern are kept in a list; a `next` reference is the
 * position of the node it points to. `compile` appends nodes in the order
 * it creates them and relinks the last one, as the Java code does with
 * `current.next = current = new CharProperty(...)`.
 */
module Patterns {
  import opened Wrappers
  import opened CharPredicates
  import opened PatternSyntax

  /** A `next` reference: `null`, or the position of a node. */
  datatype Link = Null | To(index: nat)

  /** `Pattern.Node` and its subclasses `Start`, `CharProperty` and `Last`. */
  datatype Node =
    | Start(next: Link)
    | CharProperty(charPredicate: CharPredicate, next: Link)
    | Last

  /** A compiled pattern: `root` is the first node. */
  datatype Pattern = Pattern(nodes: seq<Node>, groupCount: nat)

  /** The node with its `next` field replaced (`Last` never has a successor). */
  function WithNext(n: Node, link: Link): Node {
    if n.Start? then Start(link)
    else if n.CharProperty? then CharProperty(n.charPredicate, link)
    else Last
  }

  /**
   * The shape every compiled pattern has: `Start`, then a run of
   * `CharProperty` nodes each linked to the one after it, then `Last`.
   */
  predicate ValidChain(nodes: seq<Node>) {
    |nodes| >= 2 && nodes[0] == Start(To(1)) && nodes[|nodes| - 1] == Last &&
    forall k :: 1 <= k < |nodes| - 1 ==> nodes[k].CharProperty? && nodes[k].next == To(k + 1)
  }

  /** `CharProperty` nodes for `preds`, placed from position `base`, each linked to its successor. */
  function Links(preds: seq<CharPredicate>, base: nat): (r: seq<Node>)
    ensures |r| == |preds|
    ensures forall k :: 0 <= k < |preds| ==> r[k] == CharProperty(preds[k], To(base + k + 1))
  {
    if preds == [] then [] else [CharProperty(preds[0], To(base + 1))] + Links(preds[1..], base + 1)
  }

  /** The finished node list of a pattern whose atoms have the predicates `preds`. */
  function Chain(preds: seq<CharPredicate>): seq<Node> {
    [Start(To(1))] + Links(preds, 1) + [Last]
  }

  /**
   * The node list while `compile` runs: `Start` and one node per atom read
   * so far, the last of them (`current`) not yet linked.
   */
  function Linked(preds: seq<CharPredicate>): (r: seq<Node>)
    ensures |r| == |preds| + 1
  {
    if preds == [] then [Start(Null)]
    else [Start(To(1))] + Links(preds[..|preds| - 1], 1) + [CharProperty(preds[|preds| - 1], Null)]
  }

  /** `current.next = current = node`: link the last node to a new one appended after it. */
  function Attach(nodes: seq<Node>, node: Node): (r: seq<Node>)
    requires nodes != []
    ensures |r| == |nodes| + 1 && r[|nodes|] == node
    ensures r[..|nodes| - 1] == nodes[..|nodes| - 1]
    ensures nodes[|nodes| - 1].Start? ==> r[|nodes| - 1] == Start(To(|nodes|))
    ensures nodes[|nodes| - 1].CharProperty? ==>
      r[|nodes| - 1] == CharProperty(nodes[|nodes| - 1].charPredicate, To(|nodes|))
  {
    nodes[|nodes| - 1 := WithNext(nodes[|nodes| - 1], To(|nodes|))] + [node]
  }

  /** A chain is valid, holds its predicates in order, and has nothing else. */
  lemma ChainValid(preds: seq<CharPredicate>)
    ensures ValidChain(Chain(preds))
    ensures |Chain(preds)| == |preds| + 2
    ensures forall k :: 0 <= k < |preds| ==> Chain(preds)[k + 1].charPredicate == preds[k]
  {
    var c := Chain(preds);
    assert forall k :: 1 <= k < |c| - 1 ==> c[k] == Links(preds, 1)[k - 1];
  }

  /** Every valid chain is the chain of its predicates. */
  lemma ChainOfNodes(nodes: seq<Node>)
    requires ValidChain(nodes)
    ensures nodes == Chain(seq(|nodes| - 2, k requires 0 <= k < |nodes| - 2 => nodes[k + 1].charPredicate))
  {
    var preds := seq(|nodes| - 2, k requires 0 <= k < |nodes| - 2 => nodes[k + 1].charPredicate);
    var c := Chain(preds);
    assert forall k :: 1 <= k < |c| - 1 ==> c[k] == Links(preds, 1)[k - 1];
    assert |c| == |nodes|;
    forall k | 0 <= k < |nodes| ensures c[k] == nodes[k] {
      if 1 <= k < |nodes| - 1 {
        assert nodes[k] == CharProperty(nodes[k].charPredicate, To(k + 1));
      }
    }
  }

  /** Attaching a new `CharProperty` to the partial list gives the partial list one atom longer. */
  lemma AttachStep(preds: seq<CharPredicate>, p: CharPredicate)
    ensures Attach(Linked(preds), CharProperty(p, Null)) == Linked(preds + [p])
  {
    var a := Attach(Linked(preds), CharProperty(p, Null));
    var b := Linked(preds + [p]);
    var ps := preds + [p];
    assert ps[..|ps| - 1] == preds;
    assert |a| == |b|;
    forall k | 0 <= k < |a| ensures a[k] == b[k] {
      if 1 <= k < |preds| {
        assert a[k] == Links(preds[..|preds| - 1], 1)[k - 1];
        assert b[k] == Links(preds, 1)[k - 1];
      } else if k == |preds| && k > 0 {
        assert b[k] == Links(preds, 1)[k - 1];
      }
    }
  }

  /** Attaching `Last` finishes the partial list into the chain. */
  lemma AttachLast(preds: seq<CharPredicate>)
    ensures Attach(Linked(preds), Last) == Chain(preds)
  {
    var a := Attach(Linked(preds), Last);
    var b := Chain(preds);
    assert |a| == |b|;
    forall k | 0 <= k < |a| ensures a[k] == b[k] {
      if 1 <= k < |preds| {
        assert a[k] == Links(preds[..|preds| - 1], 1)[k - 1];
        assert b[k] == Links(preds, 1)[k - 1];
      } else if k == |preds| && k > 0 {
        assert b[k] == Links(preds, 1)[k - 1];
      }
    }
  }

  /* What remains of `compile` from a point of its scan, as a value. */

  /**
   * The outcome of `compile` once the atoms with predicates `preds` have
   * been read and `rest` remains; `n` is the length of the whole pattern.
   */
  function Continue(preds: seq<CharPredicate>, rest: string, n: nat): Result<seq<CharPredicate>, CompileError> {
    var l := Lex(rest);
    match TranslateTokens(l.tokens)
    case Err(x) => Err(x)
    case Ok(ps) => if l.dangling then Err(StringIndexOutOfBounds(n)) else Ok(preds + ps)
  }

  /**
   * The outcome of the bracket loop, with `parts` built from the items read
   * so far and `rest` following them: the predicate of the set and the text
   * after it, or the exception the loop throws.
   */
  function SetOutcome(parts: SetParts, rest: string, n: nat): Result<(CharPredicate, string), CompileError> {
    var b := ScanSet(rest);
    var t := TranslateItems(b.items, parts);
    if t.Err? then Err(t.error)
    else if b.dangling then Err(StringIndexOutOfBounds(n))
    else Ok((SetPredicate(t.value), b.rest))
  }

  lemma ContinueStart(e: string)
    ensures Continue([], e, |e|) == CompileSpec(e)
  {
    if TranslateTokens(Lex(e).tokens).Ok? {
      assert [] + TranslateTokens(Lex(e).tokens).value == TranslateTokens(Lex(e).tokens).value;
    }
  }

  lemma ContinueEnd(preds: seq<CharPredicate>, n: nat)
    ensures Continue(preds, [], n) == Ok(preds)
  {
    assert Lex([]) == Lexed([], false);
    assert preds + [] == preds;
  }

  lemma TranslateTokensCons(t: Token, ts: seq<Token>)
    ensures TranslateTokens([t] + ts) ==
      if TranslateToken(t).Err? then Err(TranslateToken(t).error)
      else if TranslateTokens(ts).Err? then Err(TranslateTokens(ts).error)
      else Ok([TranslateToken(t).value] + TranslateTokens(ts).value)
  {
    assert ([t] + ts)[0] == t && ([t] + ts)[1..] == ts;
  }

  /** Reading one atom `t` and then the text `tail`, which `Lex` reads as the rest. */
  lemma ContinueCons(preds: seq<CharPredicate>, rest: string, t: Token, tail: string, n: nat)
    requires Lex(rest) == Cons(t, Lex(tail))
    ensures Continue(preds, rest, n) ==
      if TranslateToken(t).Err? then Err(TranslateToken(t).error)
      else Continue(preds + [TranslateToken(t).value], tail, n)
  {
    TranslateTokensCons(t, Lex(tail).tokens);
    if TranslateToken(t).Ok? && TranslateTokens(Lex(tail).tokens).Ok? {
      var p := TranslateToken(t).value;
      var ps := TranslateTokens(Lex(tail).tokens).value;
      assert preds + ([p] + ps) == preds + [p] + ps;
    }
  }

  /** A literal character becomes an `AsciiClass`. */
  lemma ContinueLiteral(preds: seq<CharPredicate>, rest: string, n: nat)
    requires rest != [] && rest[0] != '\\' && rest[0] != '['
    ensures Continue(preds, rest, n) == Continue(preds + [Ascii(rest[0])], rest[1..], n)
  {
    ContinueCons(preds, rest, Literal(rest[0]), rest[1..], n);
  }

  /** `\x` becomes the range class named `x`, or throws when there is none. */
  lemma ContinueEscape(preds: seq<CharPredicate>, rest: string, n: nat)
    requires |rest| > 1 && rest[0] == '\\'
    ensures Continue(preds, rest, n) ==
      if RangeClassOf(rest[1]).None? then Err(UnknownCharacterClass(rest[1]))
      else Continue(preds + [Range(RangeClassOf(rest[1]).value)], rest[2..], n)
  {
    ContinueCons(preds, rest, Escape(rest[1]), rest[2..], n);
  }

  /** A `\` at the very end throws when `charAt` reads past it. */
  lemma ContinueDanglingEscape(preds: seq<CharPredicate>, n: nat)
    ensures Continue(preds, "\\", n) == Err(StringIndexOutOfBounds(n))
  {
  }

  /** `[` starts a set with an empty table and no classes; the atom after the set follows. */
  lemma ContinueBracket(preds: seq<CharPredicate>, rest: string, n: nat)
    requires rest != [] && rest[0] == '['
    ensures SetOutcome(SetParts(EmptyTable, []), rest[1..], n).Err? ==>
      Continue(preds, rest, n) == Err(SetOutcome(SetParts(EmptyTable, []), rest[1..], n).error)
    ensures SetOutcome(SetParts(EmptyTable, []), rest[1..], n).Ok? ==>
      var o := SetOutcome(SetParts(EmptyTable, []), rest[1..], n).value;
      Continue(preds, rest, n) == Continue(preds + [o.0], o.1, n)
  {
    var b := ScanSet(rest[1..]);
    if !b.dangling {
      ContinueCons(preds, rest, Set(b.items, b.closed), b.rest, n);
    } else {
      assert Lex(rest) == Lexed([Set(b.items, false)], true);
      TranslateTokensCons(Set(b.items, false), []);
      assert [Set(b.items, false)] + [] == [Set(b.items, false)];
    }
  }

  /** `]` ends the set; the end of the pattern ends it too. */
  lemma SetClose(parts: SetParts, rest: string, n: nat)
    requires rest == [] || rest[0] == ']'
    ensures SetOutcome(parts, rest, n) == Ok((SetPredicate(parts), if rest == [] then [] else rest[1..]))
  {
  }

  /** A `\` at the very end of a set throws when `charAt` reads past it. */
  lemma SetDangling(parts: SetParts, n: nat)
    ensures SetOutcome(parts, "\\", n) == Err(StringIndexOutOfBounds(n))
  {
  }

  /** `\x` inside a set adds the range class named `x`, or throws when there is none. */
  lemma SetClass(parts: SetParts, rest: string, n: nat)
    requires |rest| > 1 && rest[0] == '\\'
    ensures SetOutcome(parts, rest, n) ==
      if RangeClassOf(rest[1]).None? then Err(UnknownCharacterClass(rest[1]))
      else SetOutcome(SetParts(parts.table, parts.ranges + [RangeClassOf(rest[1]).value]), rest[2..], n)
  {
    var b := ScanSet(rest[2..]);
    assert ScanSet(rest) == PrependItem(Class(rest[1]), b);
    var items := [Class(rest[1])] + b.items;
    assert items[0] == Class(rest[1]) && items[1..] == b.items;
  }

  /** Any other character inside a set is added to the table, or throws when its code is beyond it. */
  lemma SetMember(parts: SetParts, rest: string, n: nat)
    requires rest != [] && rest[0] != ']' && rest[0] != '\\'
    ensures SetOutcome(parts, rest, n) ==
      if rest[0] as int < |parts.table| then
        SetOutcome(SetParts(parts.table[rest[0] as int := true], parts.ranges), rest[1..], n)
      else Err(ArrayIndexOutOfBounds(rest[0] as int))
  {
    var b := ScanSet(rest[1..]);
    assert ScanSet(rest) == PrependItem(Member(rest[0]), b);
    var items := [Member(rest[0])] + b.items;
    assert items[0] == Member(rest[0]) && items[1..] == b.items;
  }

  /**
   * The `[` case of `compile`, from just after the `[`: reads members into
   * a fresh `AsciiArrayClass` and escapes into `ranges` up to the first `]`
   * or the end, then builds the set's predicate. It yields that predicate
   * and the position after the set, or the exception the loop throws.
   */
  method ReadSet(expression: string, start: nat) returns (r: Result<(CharPredicate, nat), CompileError>)
    requires start <= |expression|
    ensures SetOutcome(SetParts(EmptyTable, []), expression[start..], |expression|).Err? ==>
      r == Err(SetOutcome(SetParts(EmptyTable, []), expression[start..], |expression|).error)
    ensures SetOutcome(SetParts(EmptyTable, []), expression[start..], |expression|).Ok? ==>
      r.Ok? && start <= r.value.1 <= |expression| &&
      (r.value.0, expression[r.value.1..]) == SetOutcome(SetParts(EmptyTable, []), expression[start..], |expression|).value
  {
    ghost var outcome := SetOutcome(SetParts(EmptyTable, []), expression[start..], |expression|);
    var index := start;
    var asciiArray := new AsciiArrayClass();
    var ranges: seq<CharacterRangeClass> := [];
    assert asciiArray.characters[..] == EmptyTable;
    while index < |expression|
      invariant start <= index <= |expression|
      invariant asciiArray.characters.Length == 256
      invariant SetOutcome(SetParts(asciiArray.characters[..], ranges), expression[index..], |expression|) == outcome
      decreases |expression| - index
    {
      ghost var rest := expression[index..];
      ghost var before := asciiArray.characters[..];
      var currentChar := expression[index];
      index := index + 1;
      if currentChar == ']' {
        SetClose(SetParts(before, ranges), rest, |expression|);
        assert rest[1..] == expression[index..];
        break;
      }
      if currentChar == '\\' {
        if index >= |expression| {
          assert rest == "\\";
          SetDangling(SetParts(before, ranges), |expression|);
          return Err(StringIndexOutOfBounds(index));
        }
        currentChar := expression[index];
        index := index + 1;
        SetClass(SetParts(before, ranges), rest, |expression|);
        assert rest[2..] == expression[index..];
        var characterClass := CharPredicates.FromIdentifier(currentChar);
        if characterClass.None? {
          return Err(UnknownCharacterClass(currentChar));
        }
        ranges := ranges + [characterClass.value];
      } else {
        SetMember(SetParts(before, ranges), rest, |expression|);
        assert rest[1..] == expression[index..];
        if currentChar as int >= asciiArray.characters.Length {
          return Err(ArrayIndexOutOfBounds(currentChar as int));
        }
        var _ := asciiArray.Add(currentChar);
        assert asciiArray.characters[..] == before[currentChar as int := true];
      }
    }
    SetClose(SetParts(asciiArray.characters[..], ranges), [], |expression|);
    var charPredicate: CharPredicate;
    if ranges == [] {
      charPredicate := AsciiArray(asciiArray.characters[..]);
    } else {
      charPredicate := Or([AsciiArray(asciiArray.characters[..])] + RangePredicates(ranges));
    }
    return Ok((charPredicate, index));
  }

  /**
   * `Pattern.compile`: scans the expression once, appending one
   * `CharProperty` per atom and `Last` at the end. It yields the chain of
   * the predicates `CompileSpec` reads the expression as, with no capture
   * groups, or the exception the scan throws first.
   */
  method Compile(expression: string) returns (r: Result<Pattern, CompileError>)
    ensures CompileSpec(expression).Ok? ==> r == Ok(Pattern(Chain(CompileSpec(expression).value), 0))
    ensures CompileSpec(expression).Err? ==> r == Err(CompileSpec(expression).error)
  {
    var nodes := [Start(Null)];
    var current := 0;
    ghost var preds: seq<CharPredicate> := [];
    var index := 0;
    ContinueStart(expression);
    while index < |expression|
      invariant 0 <= index <= |expression|
      invariant nodes == Linked(preds) && current == |nodes| - 1
      invariant Continue(preds, expression[index..], |expression|) == CompileSpec(expression)
      decreases |expression| - index
    {
      ghost var rest := expression[index..];
      var currentChar := expression[index];
      index := index + 1;
      var charPredicate: CharPredicate;
      if currentChar == '\\' {
        if index >= |expression| {
          assert rest == "\\";
          ContinueDanglingEscape(preds, |expression|);
          return Err(StringIndexOutOfBounds(index));
        }
        currentChar := expression[index];
        index := index + 1;
        ContinueEscape(preds, rest, |expression|);
        assert rest[2..] == expression[index..];
        var characterClass := CharPredicates.FromIdentifier(currentChar);
        if characterClass.None? {
          return Err(UnknownCharacterClass(currentChar));
        }
        charPredicate := Range(characterClass.value);
        assert Continue(preds + [charPredicate], expression[index..], |expression|) == CompileSpec(expression);
      } else if currentChar == '[' {
        ContinueBracket(preds, rest, |expression|);
        assert rest[1..] == expression[index..];
        var bracket := ReadSet(expression, index);
        if bracket.Err? {
          return Err(bracket.error);
        }
        charPredicate := bracket.value.0;
        index := bracket.value.1;
        assert Continue(preds + [charPredicate], expression[index..], |expression|) == CompileSpec(expression);
      } else {
        ContinueLiteral(preds, rest, |expression|);
        assert rest[1..] == expression[index..];
        charPredicate := Ascii(currentChar);
        assert Continue(preds + [charPredicate], expression[index..], |expression|) == CompileSpec(expression);
      }
      AttachStep(preds, charPredicate);
      nodes := nodes[current := WithNext(nodes[current], To(|nodes|))] + [CharProperty(charPredicate, Null)];
      current := |nodes| - 1;
      preds := preds + [charPredicate];
    }
    AttachLast(preds);
    ContinueEnd(preds, |expression|);
    nodes := nodes[current := WithNext(nodes[current], To(|nodes|))] + [Last];
    return Ok(Pattern(nodes, 0));
  }

  /** A compiled pattern is a valid chain with one `CharProperty` per atom. */
  lemma CompiledShape(e: string)
    requires CompileSpec(e).Ok?
    ensures ValidChain(Chain(CompileSpec(e).value))
    ensures |Chain(CompileSpec(e).value)| == |Lex(e).tokens| + 2
    ensures forall k :: 0 <= k < |Lex(e).tokens| ==>
      TranslateToken(Lex(e).tokens[k]) == Ok(Chain(CompileSpec(e).value)[k + 1].charPredicate)
  {
    ChainValid(CompileSpec(e).value);
    OnePredicatePerAtom(e);
  }
}
