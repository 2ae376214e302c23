/**
 * Matcher.java, and the `match` methods of the nodes in Pattern.java,
 * which read and write the matcher's fields.
 */
module Matchers {
  import opened Wrappers
  import opened CharPredicates
  import opened Patterns
  import opened MatchSemantics

  /** `Matcher`: a compiled pattern, the text it runs on, and the state of the last search. */
  class Matcher {
    const pattern: Pattern
    const text: string
    const groupStarts: array<int>
    const groupEnds: array<int>
    var first: int
    var last: int
    var from: int
    var to: int
    var hitEnd: bool

    /**
     * The pattern is a compiled chain, and the capture arrays have one entry
     * per group plus one for the whole match; nothing writes them, so they
     * hold the zeros `new int[]` starts with.
     */
    ghost predicate Allocated()
      reads this, groupStarts, groupEnds
    {
      ValidChain(pattern.nodes) &&
      groupStarts.Length == pattern.groupCount + 1 && groupEnds.Length == pattern.groupCount + 1 &&
      (forall i :: 0 <= i < groupStarts.Length ==> groupStarts[i] == 0) &&
      (forall i :: 0 <= i < groupEnds.Length ==> groupEnds[i] == 0)
    }

    /** Between calls: the search region is the whole text, as `reset` leaves it. */
    ghost predicate Valid()
      reads this, groupStarts, groupEnds
    {
      Allocated() && from == 0 && to == |text|
    }

    /** `new Matcher(pattern, text)`, which `Pattern.matcher` calls: allocates the capture arrays, then resets. */
    constructor (pattern: Pattern, text: string)
      requires ValidChain(pattern.nodes)
      ensures Valid() && this.pattern == pattern && this.text == text
      ensures first == -1 && last == 0 && !hitEnd
    {
      this.pattern := pattern;
      this.text := text;
      groupStarts := new int[pattern.groupCount + 1](_ => 0);
      groupEnds := new int[pattern.groupCount + 1](_ => 0);
      hitEnd := false;
      new;
      var _ := Reset();
    }

    /** `reset`: no match, the whole text as the region; the capture arrays are left alone. */
    method Reset() returns (self: Matcher)
      requires Allocated()
      modifies this`first, this`last, this`from, this`to
      ensures self == this && Valid()
      ensures first == -1 && last == 0 && from == 0 && to == |text|
    {
      first := -1;
      last := 0;
      from := 0;
      to := |text|;
      return this;
    }

    /**
     * `find(from)`: a reset followed by a search from `from`, so its outcome
     * depends only on the pattern, the text and `from`.
     */
    method Find(from: int) returns (found: bool)
      requires Valid() && 0 <= from && SafeStart(pattern.nodes, from, text)
      modifies this`first, this`last, this`from, this`to, this`hitEnd
      ensures Valid()
      ensures found == Leftmost(pattern.nodes, from, text).Some?
      ensures found ==> (first == Leftmost(pattern.nodes, from, text).value &&
                         from <= first <= last <= |text| && last - first == |pattern.nodes| - 2)
      ensures !found ==> first == -1 && last == 0
      ensures hitEnd == !found
    {
      var _ := Reset();
      found := Search(from);
    }

    /**
     * `search(from)`: clears `hitEnd` and runs the root. On success `first`
     * and `last` bound the leftmost match; on failure `first` is -1, `last`
     * is left alone and `hitEnd` is set.
     */
    method Search(from: int) returns (found: bool)
      requires Valid() && 0 <= from && SafeStart(pattern.nodes, from, text)
      modifies this`first, this`last, this`hitEnd
      ensures Valid()
      ensures found == Leftmost(pattern.nodes, from, text).Some?
      ensures found ==> (first == Leftmost(pattern.nodes, from, text).value &&
                         from <= first <= last <= |text| && last - first == |pattern.nodes| - 2)
      ensures !found ==> first == -1 && last == old(last)
      ensures hitEnd == !found
    {
      hitEnd := false;
      found := StartMatch(this, from);
      if !found {
        first := -1;
      } else {
        LeftmostBounds(pattern.nodes, from, text);
      }
    }

    /** `group(group)`: the text between the recorded bounds of the group, which is always empty. */
    method Group(group: int) returns (s: string)
      requires Valid() && 0 <= group <= pattern.groupCount
      ensures s == text[groupStarts[group]..groupEnds[group]]
      ensures s == ""
    {
      var start := groupStarts[group];
      var end := groupEnds[group];
      s := text[start..end];
    }

    /** `group()`: the whole match, group 0, which is always empty. */
    method GroupWhole() returns (s: string)
      requires Valid()
      ensures s == ""
    {
      s := Group(0);
    }

    /** `groupCount()`: the number of capture groups, one less than the length of the capture arrays. */
    method GroupCount() returns (n: int)
      requires Valid()
      ensures n == pattern.groupCount && n + 1 == groupStarts.Length == groupEnds.Length
    {
      n := pattern.groupCount;
    }
  }

  /**
   * `Start.match(matcher, index, text)`: tries each start from `index` up to
   * `to` and records the first that matches in `first`; when none does it
   * sets `hitEnd`.
   */
  method StartMatch(m: Matcher, index: nat) returns (r: bool)
    requires m.Valid() && SafeStart(m.pattern.nodes, index, m.text)
    modifies m`first, m`last, m`hitEnd
    ensures m.Valid()
    ensures r == Leftmost(m.pattern.nodes, index, m.text).Some?
    ensures r ==> (m.first == Leftmost(m.pattern.nodes, index, m.text).value &&
                   m.last == m.first + |m.pattern.nodes| - 2 && m.hitEnd == old(m.hitEnd))
    ensures !r ==> m.first == old(m.first) && m.last == old(m.last) && m.hitEnd
  {
    ghost var nodes := m.pattern.nodes;
    var root := m.pattern.nodes[0];
    var end := m.to;
    var i := index;
    while i <= end
      invariant index <= i
      invariant m.Valid() && m.pattern.nodes == nodes
      invariant Leftmost(nodes, index, m.text) == Leftmost(nodes, i, m.text)
      invariant SafeStart(nodes, i, m.text)
      invariant m.first == old(m.first) && m.last == old(m.last)
      invariant m.hitEnd == (old(m.hitEnd) || AnyHitsEnd(nodes, index, i, m.text))
      decreases end + 1 - i
    {
      var matched := NodeMatch(m, root.next.index, i);
      if matched {
        m.first := i;
        NoHitEndBeforeLeftmost(nodes, index, i, m.text);
        HitsEndBound(nodes, 1, i, m.text);
        MatchesFromBound(nodes, 1, i, m.text);
        return true;
      }
      i := i + 1;
    }
    m.hitEnd := true;
    return false;
  }

  /** `next.match(matcher, index, text)`: dispatches on the kind of node. */
  method NodeMatch(m: Matcher, k: nat, index: nat) returns (r: bool)
    requires m.Valid() && 1 <= k < |m.pattern.nodes| && SafeFrom(m.pattern.nodes, k, index, m.text)
    modifies m`last, m`hitEnd
    ensures m.Valid()
    ensures r == MatchesFrom(m.pattern.nodes, k, index, m.text)
    ensures r ==> m.last == index + Remaining(m.pattern.nodes, k)
    ensures !r ==> m.last == old(m.last)
    ensures m.hitEnd == (old(m.hitEnd) || HitsEnd(m.pattern.nodes, k, index, m.text))
    decreases |m.pattern.nodes| - k, 1
  {
    if m.pattern.nodes[k].Last? {
      r := LastMatch(m, index);
    } else {
      r := CharPropertyMatch(m, k, index);
    }
  }

  /**
   * `CharProperty.match`: before the end of the region, tests the character
   * at `index` and, if it is accepted, continues with the next node at
   * `index + 1`; at the end it sets `hitEnd`. A rejected character leaves
   * `hitEnd` alone.
   */
  method CharPropertyMatch(m: Matcher, k: nat, index: nat) returns (r: bool)
    requires m.Valid() && 1 <= k < |m.pattern.nodes| - 1 && SafeFrom(m.pattern.nodes, k, index, m.text)
    modifies m`last, m`hitEnd
    ensures m.Valid()
    ensures r == MatchesFrom(m.pattern.nodes, k, index, m.text)
    ensures r ==> m.last == index + Remaining(m.pattern.nodes, k)
    ensures !r ==> m.last == old(m.last)
    ensures m.hitEnd == (old(m.hitEnd) || HitsEnd(m.pattern.nodes, k, index, m.text))
    decreases |m.pattern.nodes| - k, 0
  {
    var node := m.pattern.nodes[k];
    if index < m.to {
      var value := m.text[index];
      var next := index + 1;
      var accepted := Test(node.charPredicate, value);
      if accepted {
        r := NodeMatch(m, node.next.index, next);
      } else {
        r := false;
      }
      return;
    }
    m.hitEnd := true;
    r := false;
  }

  /** `Last.match`: records `index` as the end of the match and succeeds. */
  method LastMatch(m: Matcher, index: nat) returns (r: bool)
    modifies m`last
    ensures r && m.last == index
  {
    m.last := index;
    r := true;
  }

  /**
   * `Pattern.compile(expression).matcher(text).find(0)`: whether the
   * compiled pattern occurs anywhere in the text, or the exception `compile`
   * throws. The search must not make a table test throw, which
   * `CompiledSearchSafe` shows for every text of characters below 256 and
   * `LiteralSearchSafe` for patterns without `\` and `[` over any text.
   */
  method CompileAndFind(expression: string, text: string) returns (r: Result<bool, PatternSyntax.CompileError>)
    requires PatternSyntax.CompileSpec(expression).Ok? ==>
      SafeStart(Chain(PatternSyntax.CompileSpec(expression).value), 0, text)
    ensures PatternSyntax.CompileSpec(expression).Err? ==> r == Err(PatternSyntax.CompileSpec(expression).error)
    ensures PatternSyntax.CompileSpec(expression).Ok? ==>
      r == Ok(exists i: nat :: Occurs(Chain(PatternSyntax.CompileSpec(expression).value), text, i))
  {
    var pattern := Compile(expression);
    if pattern.Err? {
      return Err(pattern.error);
    }
    ChainValid(PatternSyntax.CompileSpec(expression).value);
    var matcher := new Matcher(pattern.value, text);
    var found := matcher.Find(0);
    LeftmostIsLeftmostOccurrence(pattern.value.nodes, 0, text);
    return Ok(found);
  }
}
