/**
 * What running the node chain of a compiled pattern computes, stated as
 * values: whether the chain from a node matches at an index, whether the
 * attempt runs into the end of the text (`hitEnd`), the leftmost index from
 * which the whole chain matches, and whether every predicate test on the way
 * answers without throwing.
 */
module MatchSemantics {
  import opened Wrappers
  import opened CharPredicates
  import opened PatternSyntax
  import opened Patterns

  /** The number of `CharProperty` nodes from node `k` up to `Last`. */
  function Remaining(nodes: seq<Node>, k: nat): nat
    requires k < |nodes|
  {
    |nodes| - 1 - k
  }

  /**
   * `node.match(matcher, index, text)` for a `CharProperty` or `Last` node:
   * each `CharProperty` needs a character left before the end and a predicate
   * that accepts it; `Last` always succeeds.
   */
  predicate MatchesFrom(nodes: seq<Node>, k: nat, index: nat, text: string)
    requires ValidChain(nodes) && 1 <= k < |nodes|
    decreases |nodes| - k
  {
    if nodes[k].Last? then true
    else
      index < |text| && Accepts(nodes[k].charPredicate, text[index]) &&
      MatchesFrom(nodes, nodes[k].next.index, index + 1, text)
  }

  /**
   * Whether that attempt sets `hitEnd`: a `CharProperty` reached at or past
   * the end of the text does; a rejected character stops the attempt first.
   */
  predicate HitsEnd(nodes: seq<Node>, k: nat, index: nat, text: string)
    requires ValidChain(nodes) && 1 <= k < |nodes|
    decreases |nodes| - k
  {
    if nodes[k].Last? then false
    else if index >= |text| then true
    else Accepts(nodes[k].charPredicate, text[index]) && HitsEnd(nodes, nodes[k].next.index, index + 1, text)
  }

  /** `Start.match`: the first index from `index` up to the end of the text at which the rest of the chain matches. */
  function Leftmost(nodes: seq<Node>, index: nat, text: string): Option<nat>
    requires ValidChain(nodes)
    decreases |text| + 1 - index
  {
    if index > |text| then None
    else if MatchesFrom(nodes, 1, index, text) then Some(index)
    else Leftmost(nodes, index + 1, text)
  }

  /** Whether some attempt of `Start` at an index in `[lo, hi)` sets `hitEnd`. */
  predicate AnyHitsEnd(nodes: seq<Node>, lo: nat, hi: nat, text: string)
    requires ValidChain(nodes)
    decreases hi
  {
    if hi <= lo then false
    else AnyHitsEnd(nodes, lo, hi - 1, text) || HitsEnd(nodes, 1, hi - 1, text)
  }

  /** No predicate test of the attempt from node `k` at `index` throws. */
  predicate SafeFrom(nodes: seq<Node>, k: nat, index: nat, text: string)
    requires ValidChain(nodes) && 1 <= k < |nodes|
    decreases |nodes| - k
  {
    if nodes[k].Last? || index >= |text| then true
    else
      !Faults(nodes[k].charPredicate, text[index]) &&
      (Accepts(nodes[k].charPredicate, text[index]) ==> SafeFrom(nodes, nodes[k].next.index, index + 1, text))
  }

  /** No predicate test of `Start.match` from `index` throws, up to the first index that matches. */
  predicate SafeStart(nodes: seq<Node>, index: nat, text: string)
    requires ValidChain(nodes)
    decreases |text| + 1 - index
  {
    if index > |text| then true
    else SafeFrom(nodes, 1, index, text) && (MatchesFrom(nodes, 1, index, text) || SafeStart(nodes, index + 1, text))
  }

  /** Each node is a `CharProperty` whose predicate accepts the character at the same position. */
  predicate AcceptsAll(ns: seq<Node>, s: string) {
    |ns| == |s| && forall j :: 0 <= j < |s| ==> ns[j].CharProperty? && Accepts(ns[j].charPredicate, s[j])
  }

  /** The atoms of the chain accept the characters of `text` from position `i` on, one each. */
  predicate Occurs(nodes: seq<Node>, text: string, i: nat)
    requires ValidChain(nodes)
  {
    i + |nodes| - 2 <= |text| && AcceptsAll(nodes[1..|nodes| - 1], text[i..i + |nodes| - 2])
  }

  lemma AcceptsAllCons(n: Node, ns: seq<Node>, c: char, s: string)
    ensures AcceptsAll([n] + ns, [c] + s) <==> n.CharProperty? && Accepts(n.charPredicate, c) && AcceptsAll(ns, s)
  {
    if n.CharProperty? && Accepts(n.charPredicate, c) && AcceptsAll(ns, s) {
      forall j | 0 <= j < |[c] + s| ensures ([n] + ns)[j].CharProperty? && Accepts(([n] + ns)[j].charPredicate, ([c] + s)[j]) {
        if j > 0 {
          assert ([n] + ns)[j] == ns[j - 1] && ([c] + s)[j] == s[j - 1];
        }
      }
    }
    if AcceptsAll([n] + ns, [c] + s) {
      assert ([n] + ns)[0] == n && ([c] + s)[0] == c;
      forall j | 0 <= j < |s| ensures ns[j].CharProperty? && Accepts(ns[j].charPredicate, s[j]) {
        assert ([n] + ns)[j + 1] == ns[j] && ([c] + s)[j + 1] == s[j];
      }
    }
  }

  /**
   * From an index within the text, the chain from node `k` matches iff the
   * text has a character for every remaining atom and each atom accepts its
   * character.
   */
  lemma {:induction false} MatchesFromSpec(nodes: seq<Node>, k: nat, index: nat, text: string)
    requires ValidChain(nodes) && 1 <= k < |nodes| && index <= |text|
    ensures MatchesFrom(nodes, k, index, text) <==>
      index + Remaining(nodes, k) <= |text| &&
      AcceptsAll(nodes[k..|nodes| - 1], text[index..index + Remaining(nodes, k)])
    decreases |nodes| - k
  {
    var n := Remaining(nodes, k);
    if nodes[k].Last? {
      assert nodes[k..|nodes| - 1] == [] && text[index..index] == [];
    } else if index == |text| {
    } else {
      assert nodes[k].next.index == k + 1;
      MatchesFromSpec(nodes, k + 1, index + 1, text);
      assert nodes[k..|nodes| - 1] == [nodes[k]] + nodes[k + 1..|nodes| - 1];
      if index + n <= |text| {
        assert text[index..index + n] == [text[index]] + text[index + 1..index + 1 + Remaining(nodes, k + 1)];
        AcceptsAllCons(nodes[k], nodes[k + 1..|nodes| - 1], text[index], text[index + 1..index + 1 + Remaining(nodes, k + 1)]);
      }
    }
  }

  /** From an index within the text, the whole chain matches iff its atoms occur there. */
  lemma MatchesIffOccurs(nodes: seq<Node>, text: string, i: nat)
    requires ValidChain(nodes) && i <= |text|
    ensures MatchesFrom(nodes, 1, i, text) <==> Occurs(nodes, text, i)
  {
    MatchesFromSpec(nodes, 1, i, text);
  }

  /**
   * `Start.match` from `from` finds the smallest index at or after `from`
   * at which the atoms occur, and finds nothing iff there is none.
   */
  lemma {:induction false} LeftmostIsLeftmostOccurrence(nodes: seq<Node>, from: nat, text: string)
    requires ValidChain(nodes)
    ensures Leftmost(nodes, from, text).Some? ==>
      var i := Leftmost(nodes, from, text).value;
      from <= i && Occurs(nodes, text, i) && forall j :: from <= j < i ==> !Occurs(nodes, text, j)
    ensures Leftmost(nodes, from, text).None? <==> forall j: nat :: from <= j ==> !Occurs(nodes, text, j)
    decreases |text| + 1 - from
  {
    if from > |text| {
      forall j: nat | from <= j ensures !Occurs(nodes, text, j) {
      }
    } else {
      MatchesIffOccurs(nodes, text, from);
      if !MatchesFrom(nodes, 1, from, text) {
      LeftmostIsLeftmostOccurrence(nodes, from + 1, text);
      if Leftmost(nodes, from, text).Some? {
        var i := Leftmost(nodes, from, text).value;
        assert forall j :: from + 1 <= j < i ==> !Occurs(nodes, text, j);
      } else {
        forall j: nat | from <= j ensures !Occurs(nodes, text, j) {
          if j > from {
            assert !Occurs(nodes, text, j);
          }
        }
      }
      }
    }
  }

  /** An attempt that sets `hitEnd` started too close to the end for the remaining atoms. */
  lemma {:induction false} HitsEndBound(nodes: seq<Node>, k: nat, index: nat, text: string)
    requires ValidChain(nodes) && 1 <= k < |nodes|
    ensures HitsEnd(nodes, k, index, text) ==> index + Remaining(nodes, k) > |text|
    ensures HitsEnd(nodes, k, index, text) ==> !MatchesFrom(nodes, k, index, text)
    decreases |nodes| - k
  {
    if !nodes[k].Last? && index < |text| {
      HitsEndBound(nodes, k + 1, index + 1, text);
    }
  }

  /** A match starting at `index` leaves room for every remaining atom. */
  lemma MatchesFromBound(nodes: seq<Node>, k: nat, index: nat, text: string)
    requires ValidChain(nodes) && 1 <= k < |nodes| && index <= |text|
    ensures MatchesFrom(nodes, k, index, text) ==> index + Remaining(nodes, k) <= |text|
  {
    MatchesFromSpec(nodes, k, index, text);
  }

  /**
   * No attempt of `Start` before the leftmost match sets `hitEnd`, so a
   * search that succeeds leaves `hitEnd` as it found it.
   */
  lemma {:induction false} NoHitEndBeforeLeftmost(nodes: seq<Node>, lo: nat, hi: nat, text: string)
    requires ValidChain(nodes) && lo <= hi <= |text| && MatchesFrom(nodes, 1, hi, text)
    ensures !AnyHitsEnd(nodes, lo, hi, text)
    decreases hi
  {
    MatchesFromBound(nodes, 1, hi, text);
    if lo < hi {
      HitsEndBound(nodes, 1, hi - 1, text);
      ForgetLater(nodes, lo, hi - 1, hi, text);
    }
  }

  /** Attempts before `mid` do not set `hitEnd` when none from a later start fits before the end. */
  lemma {:induction false} ForgetLater(nodes: seq<Node>, lo: nat, mid: nat, hi: nat, text: string)
    requires ValidChain(nodes) && mid < hi && hi + Remaining(nodes, 1) <= |text|
    ensures !AnyHitsEnd(nodes, lo, mid, text)
    decreases mid
  {
    if lo < mid {
      HitsEndBound(nodes, 1, mid - 1, text);
      ForgetLater(nodes, lo, mid - 1, hi, text);
    }
  }

  /** A leftmost match ends where `Last` records it: one position per atom after its start, within the text. */
  lemma LeftmostBounds(nodes: seq<Node>, from: nat, text: string)
    requires ValidChain(nodes) && Leftmost(nodes, from, text).Some?
    ensures var i := Leftmost(nodes, from, text).value;
      from <= i && i + |nodes| - 2 <= |text| && MatchesFrom(nodes, 1, i, text)
  {
    LeftmostIsLeftmostOccurrence(nodes, from, text);
    var i := Leftmost(nodes, from, text).value;
    MatchesIffOccurs(nodes, text, i);
  }

  /** A search that starts past the end finds nothing and tests no character. */
  lemma FindBeyondEnd(nodes: seq<Node>, from: nat, text: string)
    requires ValidChain(nodes) && from > |text|
    ensures Leftmost(nodes, from, text).None?
    ensures SafeStart(nodes, from, text)
  {
  }

  /** A predicate that `compile` produces never throws on a character below 256. */
  lemma TokenSafe(t: Token, c: char)
    requires TranslateToken(t).Ok? && c as int < 256
    ensures !Faults(TranslateToken(t).value, c)
  {
    if t.Set? {
      SetTranslation(t.items, t.closed);
    }
  }

  /** The predicates of a compiled chain never throw on a character below 256. */
  lemma CompiledPredicatesSafe(e: string, k: nat, c: char)
    requires CompileSpec(e).Ok? && 1 <= k < |Chain(CompileSpec(e).value)| - 1 && c as int < 256
    ensures !Faults(Chain(CompileSpec(e).value)[k].charPredicate, c)
  {
    CompiledShape(e);
    TokenSafe(Lex(e).tokens[k - 1], c);
  }

  /** No test throws when every predicate of the chain is safe on every character of the text. */
  lemma {:induction false} SafeFromAll(nodes: seq<Node>, k: nat, index: nat, text: string)
    requires ValidChain(nodes) && 1 <= k < |nodes|
    requires forall j, i :: 1 <= j < |nodes| - 1 && 0 <= i < |text| ==> !Faults(nodes[j].charPredicate, text[i])
    ensures SafeFrom(nodes, k, index, text)
    decreases |nodes| - k
  {
    if !nodes[k].Last? && index < |text| {
      SafeFromAll(nodes, k + 1, index + 1, text);
    }
  }

  lemma {:induction false} SafeStartAll(nodes: seq<Node>, index: nat, text: string)
    requires ValidChain(nodes)
    requires forall j, i :: 1 <= j < |nodes| - 1 && 0 <= i < |text| ==> !Faults(nodes[j].charPredicate, text[i])
    ensures SafeStart(nodes, index, text)
    decreases |text| + 1 - index
  {
    if index <= |text| {
      SafeFromAll(nodes, 1, index, text);
      SafeStartAll(nodes, index + 1, text);
    }
  }

  /**
   * Searching a compiled pattern over a text whose characters all lie below
   * 256 never makes a predicate throw.
   */
  lemma CompiledSearchSafe(e: string, from: nat, text: string)
    requires CompileSpec(e).Ok?
    requires forall i :: 0 <= i < |text| ==> text[i] as int < 256
    ensures ValidChain(Chain(CompileSpec(e).value))
    ensures SafeStart(Chain(CompileSpec(e).value), from, text)
  {
    var nodes := Chain(CompileSpec(e).value);
    CompiledShape(e);
    forall j, i | 1 <= j < |nodes| - 1 && 0 <= i < |text| ensures !Faults(nodes[j].charPredicate, text[i]) {
      CompiledPredicatesSafe(e, j, text[i]);
    }
    SafeStartAll(nodes, from, text);
  }

  /** Each predicate accepts the character at its own position. */
  predicate AcceptsEach(ps: seq<CharPredicate>, s: string) {
    |ps| == |s| && forall j :: 0 <= j < |s| ==> Accepts(ps[j], s[j])
  }

  /** The chain of `ps` occurs at `i` iff the window of the text there is accepted predicate by predicate. */
  lemma ChainOccurs(ps: seq<CharPredicate>, text: string, i: nat)
    ensures ValidChain(Chain(ps))
    ensures Occurs(Chain(ps), text, i) <==> i + |ps| <= |text| && AcceptsEach(ps, text[i..i + |ps|])
  {
    var nodes := Chain(ps);
    ChainValid(ps);
    var atoms := nodes[1..|nodes| - 1];
    assert forall j :: 0 <= j < |ps| ==> atoms[j] == nodes[j + 1];
  }

  /**
   * A pattern free of `\` and `[` compiles to a chain that occurs at `i`
   * exactly where the text holds the pattern itself.
   */
  lemma LiteralOccurs(e: string, text: string, i: nat)
    requires forall j :: 0 <= j < |e| ==> e[j] != '\\' && e[j] != '['
    ensures CompileSpec(e).Ok?
    ensures Occurs(Chain(CompileSpec(e).value), text, i) <==> i + |e| <= |text| && text[i..i + |e|] == e
  {
    LiteralPattern(e);
    ChainOccurs(Literals(e), text, i);
    if i + |e| <= |text| {
      var window := text[i..i + |e|];
      if AcceptsEach(Literals(e), window) {
        assert forall j :: 0 <= j < |e| ==> window[j] == e[j];
      }
    }
  }

  /** A search with a pattern free of `\\` and `[` never throws, whatever characters the text holds. */
  lemma LiteralSearchSafe(e: string, from: nat, text: string)
    requires forall j :: 0 <= j < |e| ==> e[j] != '\\' && e[j] != '['
    ensures CompileSpec(e).Ok?
    ensures ValidChain(Chain(CompileSpec(e).value))
    ensures SafeStart(Chain(CompileSpec(e).value), from, text)
  {
    LiteralPattern(e);
    var nodes := Chain(Literals(e));
    ChainValid(Literals(e));
    forall j, i | 1 <= j < |nodes| - 1 && 0 <= i < |text| ensures !Faults(nodes[j].charPredicate, text[i]) {
      assert nodes[j].charPredicate == Ascii(e[j - 1]);
    }
    SafeStartAll(nodes, from, text);
  }

  /** The text holds `e` at position `i`. */
  predicate ContainsAt(text: string, e: string, i: nat) {
    i + |e| <= |text| && text[i..i + |e|] == e
  }

  /** A pattern free of `\` and `[` matches a text iff the text contains it. */
  lemma LiteralSubstring(e: string, text: string)
    requires forall j :: 0 <= j < |e| ==> e[j] != '\\' && e[j] != '['
    ensures CompileSpec(e).Ok?
    ensures Leftmost(Chain(CompileSpec(e).value), 0, text).Some? <==> exists i: nat :: ContainsAt(text, e, i)
  {
    LiteralPattern(e);
    var nodes := Chain(CompileSpec(e).value);
    ChainValid(CompileSpec(e).value);
    LeftmostIsLeftmostOccurrence(nodes, 0, text);
    if Leftmost(nodes, 0, text).Some? {
      var i := Leftmost(nodes, 0, text).value;
      LiteralOccurs(e, text, i);
      assert ContainsAt(text, e, i);
    }
    if exists i: nat :: ContainsAt(text, e, i) {
      var i: nat :| ContainsAt(text, e, i);
      LiteralOccurs(e, text, i);
      assert Occurs(nodes, text, i);
      assert 0 <= i;
    }
  }
}
