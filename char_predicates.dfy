/**
 * The character predicates of Pattern.java: the `CharPredicate` interface
 * and its implementations `CharacterRangeClass`, `AsciiClass`,
 * `AsciiArrayClass` and `OrCharPredicate`.
 */
module CharPredicates {
  import opened Wrappers
  import CharacterClasses

  /** `Pattern.CharacterRangeClass`, the copy of the digit and word classes that `compile` uses. */
  datatype CharacterRangeClass = DIGITS | WORDS {

    function Identifier(): char {
      match this
      case DIGITS => 'd'
      case WORDS => 'w'
    }

    function Test(c: char): (r: bool)
      ensures r ==> c as int < 128
    {
      match this
      case DIGITS => '0' <= c <= '9'
      case WORDS => ('0' <= c <= '9') || ('a' <= c <= 'z') || ('A' <= c <= 'Z') || c == '_'
    }
  }

  /** `values()`, in declaration order. */
  const RangeClasses: seq<CharacterRangeClass> := [DIGITS, WORDS]

  /**
   * The class named by an escape letter, as a value: `None` where
   * `fromIdentifier` throws IllegalArgumentException.
   */
  function RangeClassOf(identifier: char): (r: Option<CharacterRangeClass>)
    ensures r.Some? <==> exists k: CharacterRangeClass :: k.Identifier() == identifier
    ensures forall k: CharacterRangeClass :: k.Identifier() == identifier ==> r == Some(k)
  {
    if identifier == DIGITS.Identifier() then Some(DIGITS)
    else if identifier == WORDS.Identifier() then Some(WORDS)
    else None
  }

  /** `CharacterRangeClass.fromIdentifier`: a linear search over `values()`. */
  method FromIdentifier(identifier: char) returns (r: Option<CharacterRangeClass>)
    ensures r == RangeClassOf(identifier)
  {
    for i := 0 to |RangeClasses|
      invariant forall j :: 0 <= j < i ==> RangeClasses[j].Identifier() != identifier
    {
      if RangeClasses[i].Identifier() == identifier {
        return Some(RangeClasses[i]);
      }
    }
    assert identifier != DIGITS.Identifier() && identifier != WORDS.Identifier() by {
      assert RangeClasses[0] == DIGITS && RangeClasses[1] == WORDS;
    }
    return None;
  }

  /** The enum of CharacterClass.java that corresponds to a range class. */
  function Counterpart(k: CharacterRangeClass): (r: CharacterClasses.CharacterClass)
    ensures r.Identifier() == k.Identifier()
  {
    match k
    case DIGITS => CharacterClasses.DIGITS
    case WORDS => CharacterClasses.WORDS
  }

  /**
   * The two enums are copies of each other: corresponding constants have
   * the same identifier and accept the same characters, and an identifier
   * names a constant of one exactly when it names the counterpart in the other.
   */
  lemma RangeClassAgreesWithCharacterClass(k: CharacterRangeClass, c: char, identifier: char)
    ensures k.Test(c) == Counterpart(k).Test(c)
    ensures (k.Identifier() == identifier) == (Counterpart(k).Identifier() == identifier)
    ensures RangeClassOf(identifier).Some? <==> exists j: CharacterClasses.CharacterClass :: j.Identifier() == identifier
  {
    if identifier == 'd' {
      assert CharacterClasses.CharacterClass.DIGITS.Identifier() == identifier;
    } else if identifier == 'w' {
      assert CharacterClasses.CharacterClass.WORDS.Identifier() == identifier;
    }
  }

  /**
   * `AsciiArrayClass`: a membership table indexed by character code,
   * updated in place by `add`.
   */
  class AsciiArrayClass {
    const characters: array<bool>

    /** `new AsciiArrayClass()`: a 256-entry table that rejects every character. */
    constructor ()
      ensures fresh(characters) && characters.Length == 256
      ensures forall j :: 0 <= j < characters.Length ==> !characters[j]
    {
      characters := new bool[256](_ => false);
    }

    /** `new AsciiArrayClass(characters)`: a table that shares the given array. */
    constructor Wrap(characters: array<bool>)
      ensures this.characters == characters
    {
      this.characters := characters;
    }

    /**
     * `add`: marks `c` as a member; Java indexes the array by the character
     * code, so a code outside the array is the caller's error.
     */
    method Add(c: char) returns (r: bool)
      requires c as int < characters.Length
      modifies characters
      ensures r && Test(c)
      ensures forall j :: 0 <= j < characters.Length && j != c as int ==> characters[j] == old(characters[j])
    {
      characters[c as int] := true;
      return true;
    }

    /** `test`: the table entry of `c`. */
    function Test(c: char): bool
      requires c as int < characters.Length
      reads characters
    {
      characters[c as int]
    }
  }

  /**
   * A `CharPredicate` as a value. `AsciiArray` holds the contents of an
   * `AsciiArrayClass` table; `Or` holds the children of an
   * `OrCharPredicate`, `first` followed by `others`.
   */
  datatype CharPredicate =
    | Ascii(value: char)
    | Range(range: CharacterRangeClass)
    | AsciiArray(table: seq<bool>)
    | Or(children: seq<CharPredicate>)

  /** What `test` answers, whenever it answers at all (see `Faults`). */
  function Accepts(p: CharPredicate, c: char): bool
    decreases p
  {
    match p
    case Ascii(value) => value == c
    case Range(k) => k.Test(c)
    case AsciiArray(table) => c as int < |table| && table[c as int]
    case Or(children) => exists i :: 0 <= i < |children| && Accepts(children[i], c)
  }

  /**
   * Whether `test(c)` throws ArrayIndexOutOfBoundsException: a table is
   * consulted with a code outside it. `OrCharPredicate` consults its children
   * in order and stops at the first that accepts.
   */
  function Faults(p: CharPredicate, c: char): bool
    decreases p
  {
    match p
    case Ascii(_) => false
    case Range(_) => false
    case AsciiArray(table) => c as int >= |table|
    case Or(children) =>
      exists i :: 0 <= i < |children| && Faults(children[i], c) &&
        forall j :: 0 <= j < i ==> !Accepts(children[j], c)
  }

  /**
   * `CharPredicate.test`, dispatched on the kind of predicate; for `Or` it
   * is the loop of `OrCharPredicate.test`, which returns at the first child
   * that accepts.
   */
  method Test(p: CharPredicate, c: char) returns (r: bool)
    requires !Faults(p, c)
    ensures r == Accepts(p, c)
    decreases p
  {
    match p
    case Ascii(value) =>
      r := value == c;
    case Range(k) =>
      r := k.Test(c);
    case AsciiArray(table) =>
      r := table[c as int];
    case Or(children) =>
      var i := 0;
      while i < |children|
        invariant 0 <= i <= |children|
        invariant forall j :: 0 <= j < i ==> !Accepts(children[j], c)
      {
        assert !Faults(children[i], c) by {
          if Faults(children[i], c) {
            assert Faults(p, c);
          }
        }
        var accepted := Test(children[i], c);
        if accepted {
          return true;
        }
        i := i + 1;
      }
      r := false;
  }
}
