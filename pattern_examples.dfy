/**
 * Cases from PatternTest.java (lines 33-98) that `Pattern.compile`
 * supports, stated about the specification: each pattern compiles, and a
 * search from 0 finds a match or not as the test expects.
 */
module PatternExamples {
  import opened Wrappers
  import opened CharPredicates
  import opened PatternSyntax
  import opened Patterns
  import opened MatchSemantics

  /**
   * What `Pattern.compile(regex).matcher(input).find(0)` answers, or `None`
   * where `compile` or the search throws.
   */
  function Finds(regex: string, input: string): Option<bool> {
    if CompileSpec(regex).Err? then None
    else if !SafeStart(Chain(CompileSpec(regex).value), 0, input) then None
    else Some(Leftmost(Chain(CompileSpec(regex).value), 0, input).Some?)
  }

  /** A literal pattern is found iff the text contains it. */
  lemma LiteralCharacters()
    ensures Finds("d", "dog") == Some(true)
    ensures Finds("f", "dog") == Some(false)
  {
    LiteralSubstring("d", "dog");
    assert ContainsAt("dog", "d", 0);
    LiteralSubstring("f", "dog");
    forall i: nat ensures !ContainsAt("dog", "f", i) {
      if i + 1 <= 3 {
        assert "dog"[i..i + 1][0] == "dog"[i];
      }
    }
  }

  lemma Digits()
    ensures Finds("\\d", "3") == Some(true)
    ensures Finds("\\d", "foo101") == Some(true)
    ensures Finds("\\d", "c") == Some(false)
    ensures Finds("\\d", "Art") == Some(false)
  {
  }

  lemma Words()
    ensures Finds("\\w", "alpha_num3ric") == Some(true)
    ensures Finds("\\w", "foo101") == Some(true)
    ensures Finds("\\w", "$!?") == Some(false)
  {
  }

  /** A tail free of `\` and `[` contributes one literal per character. */
  lemma ContinueLiterals(preds: seq<CharPredicate>, rest: string, n: nat)
    requires forall i :: 0 <= i < |rest| ==> rest[i] != '\\' && rest[i] != '['
    ensures Continue(preds, rest, n) == Ok(preds + Literals(rest))
  {
    LexLiteral(rest);
    LiteralPattern(rest);
  }

  /** What `\\d apple` compiles to. */
  const DigitApple: seq<CharPredicate> := [Range(DIGITS), Ascii(' '), Ascii('a'), Ascii('p'), Ascii('p'), Ascii('l'), Ascii('e')]

  lemma DigitThenWord(e: string)
    requires e == "\\d apple"
    ensures CompileSpec(e) == Ok(DigitApple)
  {
    ContinueStart(e);
    ContinueEscape([], e, |e|);
    assert RangeClassOf(e[1]) == Some(DIGITS);
    assert [] + [Range(DIGITS)] == [Range(DIGITS)];
    DigitThenWordTail(e[2..], |e|);
  }

  lemma DigitThenWordTail(rest: string, n: nat)
    requires rest == " apple"
    ensures Continue([Range(DIGITS)], rest, n) == Ok(DigitApple)
  {
    ContinueLiterals([Range(DIGITS)], rest, n);
    var tail := Literals(rest);
    assert tail == [Ascii(' '), Ascii('a'), Ascii('p'), Ascii('p'), Ascii('l'), Ascii('e')] by {
      assert |tail| == 6;
      assert tail[0] == Ascii(' ') && tail[1] == Ascii('a') && tail[2] == Ascii('p');
      assert tail[3] == Ascii('p') && tail[4] == Ascii('l') && tail[5] == Ascii('e');
    }
    assert [Range(DIGITS)] + tail == DigitApple;
  }

  lemma DigitThenWordFound(e: string, text: string)
    requires e == "\\d apple" && text == "1 apple"
    ensures Finds(e, text) == Some(true)
  {
    DigitThenWord(e);
    CompiledSearchSafe(e, 0, text);
    ChainOccurs(DigitApple, text, 0);
    AppleAccepted(text);
    MatchesIffOccurs(Chain(DigitApple), text, 0);
  }

  lemma AppleAccepted(text: string)
    requires text == "1 apple"
    ensures AcceptsEach(DigitApple, text[0..7])
  {
    assert text[0..7] == text;
  }

  lemma DigitThenWordMissing(e: string, text: string)
    requires e == "\\d apple" && text == "1 orange"
    ensures Finds(e, text) == Some(false)
  {
    DigitThenWord(e);
    CompiledSearchSafe(e, 0, text);
    ChainValid(DigitApple);
    LeftmostIsLeftmostOccurrence(Chain(DigitApple), 0, text);
    forall j: nat | 0 <= j ensures !Occurs(Chain(DigitApple), text, j) {
      ChainOccurs(DigitApple, text, j);
      OrangeRejected(text, j);
    }
  }

  lemma OrangeRejected(text: string, j: nat)
    requires text == "1 orange"
    ensures !(j + 7 <= |text| && AcceptsEach(DigitApple, text[j..j + 7]))
  {
    if j + 7 <= |text| {
      var window := text[j..j + 7];
      if j == 0 {
        assert window[2] == 'o' && DigitApple[2] == Ascii('a');
      } else {
        assert window[0] == ' ' && DigitApple[0] == Range(DIGITS);
      }
    }
  }

  /**
   * A pattern that is one closed set of literal members compiles to one
   * predicate, which admits exactly the members.
   */
  lemma MemberSet(e: string, members: seq<char>)
    requires forall k :: 0 <= k < |members| ==> members[k] != ']' && members[k] != '\\' && members[k] as int < 256
    requires e == "[" + members + "]"
    ensures CompileSpec(e).Ok? && |CompileSpec(e).value| == 1
    ensures forall c: char :: c as int < 256 ==>
      !Faults(CompileSpec(e).value[0], c) && (Accepts(CompileSpec(e).value[0], c) <==> c in members)
  {
    var items := seq(|members|, k requires 0 <= k < |members| => Member(members[k]));
    var t := Set(items, true);
    var l := Lexed([t], false);
    assert RenderItems(items) == members by {
      MembersRender(members);
    }
    RenderTokensCons(t, []);
    assert [t] + [] == [t];
    assert Render(l) == e;
    RenderLex(l);
    SetTranslation(items, true);
    TranslateTokensPointwise([t]);
    forall c: char | c as int < 256
      ensures (exists k :: 0 <= k < |items| && ItemAccepts(items[k], c)) <==> c in members
    {
      if c in members {
        var k :| 0 <= k < |members| && members[k] == c;
        assert ItemAccepts(items[k], c);
      }
    }
  }

  lemma {:induction false} MembersRender(members: seq<char>)
    ensures RenderItems(seq(|members|, k requires 0 <= k < |members| => Member(members[k]))) == members
    decreases |members|
  {
    var items := seq(|members|, k requires 0 <= k < |members| => Member(members[k]));
    if members != [] {
      MembersRender(members[1..]);
      assert items[1..] == seq(|members| - 1, k requires 0 <= k < |members| - 1 => Member(members[1..][k]));
      assert members == [members[0]] + members[1..];
    }
  }

  /**
   * The only atom of a one-atom pattern finds a match iff some character of
   * the text passes it, unless the search throws first.
   */
  lemma SingleAtomFinds(e: string, text: string)
    requires CompileSpec(e).Ok? && |CompileSpec(e).value| == 1
    ensures SafeStart(Chain(CompileSpec(e).value), 0, text) ==>
      Finds(e, text) == Some(exists i :: 0 <= i < |text| && Accepts(CompileSpec(e).value[0], text[i]))
    ensures !SafeStart(Chain(CompileSpec(e).value), 0, text) ==> Finds(e, text) == None
  {
    var ps := CompileSpec(e).value;
    ChainValid(ps);
    LeftmostIsLeftmostOccurrence(Chain(ps), 0, text);
    forall i: nat ensures Occurs(Chain(ps), text, i) <==> i < |text| && Accepts(ps[0], text[i]) {
      ChainOccurs(ps, text, i);
      if i < |text| {
        assert text[i..i + 1][0] == text[i];
      }
    }
    if exists i :: 0 <= i < |text| && Accepts(ps[0], text[i]) {
      var i :| 0 <= i < |text| && Accepts(ps[0], text[i]);
      assert Occurs(Chain(ps), text, i);
    }
  }

  /** The positive character groups of PatternTest.java. */
  lemma GroupInAppleAndCab(e: string, text: string)
    requires e == "[abc]" && (text == "apple" || text == "cab")
    ensures Finds(e, text) == Some(true)
  {
    GroupFound(e, "abc", text, 0);
  }

  lemma GroupNotInDog(e: string, text: string)
    requires e == "[abc]" && text == "dog"
    ensures Finds(e, text) == Some(false)
  {
    GroupMissing(e, "abc", text);
  }

  lemma DigitGroupInMixed(e: string, text: string)
    requires e == "[123]" && text == "a1b2c3"
    ensures Finds(e, text) == Some(true)
  {
    GroupFound(e, "123", text, 1);
  }

  lemma GroupFound(e: string, members: seq<char>, text: string, i: nat)
    requires forall k :: 0 <= k < |members| ==> members[k] != ']' && members[k] != '\\' && members[k] as int < 256
    requires e == "[" + members + "]"
    requires forall k :: 0 <= k < |text| ==> text[k] as int < 256
    requires i < |text| && text[i] in members
    ensures Finds(e, text) == Some(true)
  {
    MemberSet(e, members);
    CompiledSearchSafe(e, 0, text);
    SingleAtomFinds(e, text);
  }

  lemma GroupMissing(e: string, members: seq<char>, text: string)
    requires forall k :: 0 <= k < |members| ==> members[k] != ']' && members[k] != '\\' && members[k] as int < 256
    requires e == "[" + members + "]"
    requires forall i :: 0 <= i < |text| ==> text[i] as int < 256 && text[i] !in members
    ensures Finds(e, text) == Some(false)
  {
    MemberSet(e, members);
    CompiledSearchSafe(e, 0, text);
    SingleAtomFinds(e, text);
  }

  /**
   * A character of code 256 or above makes a set's table test throw
   * ArrayIndexOutOfBoundsException, even when a member follows it.
   */
  lemma WideCharacterThrows(e: string, text: string)
    requires e == "[a]" && text == "\U{100}a"
    ensures Finds(e, text) == None
  {
    MemberSet(e, "a");
    CompiledShape(e);
    SetTranslation([Member('a')], true);
    LexSetStep([Member('a')], "");
    assert "[" + RenderItems([Member('a')]) + "]" + "" == e;
    assert Faults(CompileSpec(e).value[0], text[0]);
  }

  /**
   * `^` is an ordinary member of a set: `[^abc]` admits `^`, `a`, `b` and
   * `c`, so it finds a match in "cab"; the test at PatternTest.java:83
   * expects none, because it is written for negated sets, which this
   * `compile` does not implement.
   */
  lemma CaretIsAMember(e: string, text: string)
    requires e == "[^abc]" && (text == "cat" || text == "cab")
    ensures Finds(e, text) == Some(true)
  {
    GroupFound(e, "^abc", text, 0);
  }

  /** An undefined escape letter throws; so does a lone `\` at the end. */
  lemma Errors()
    ensures CompileSpec("\\x") == Err(UnknownCharacterClass('x'))
    ensures CompileSpec("a\\") == Err(StringIndexOutOfBounds(2))
    ensures CompileSpec("[a\\") == Err(StringIndexOutOfBounds(3))
  {
  }
}
