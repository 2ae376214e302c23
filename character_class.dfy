/**
 * The standalone `CharacterClass` enum of CharacterClass.java: the two
 * built-in classes behind the escapes `\d` and `\w`, each keyed by its
 * identifier letter.
 */
module CharacterClasses {
  import opened Wrappers

  datatype CharacterClass = DIGITS | WORDS {

    /** The escape letter that names the class. */
    function Identifier(): char {
      match this
      case DIGITS => 'd'
      case WORDS => 'w'
    }

    /** Whether the class accepts `c`; both classes are ranges of ASCII characters. */
    function Test(c: char): (r: bool)
      ensures r ==> c as int < 128
    {
      match this
      case DIGITS => '0' <= c <= '9'
      case WORDS => ('0' <= c <= '9') || ('a' <= c <= 'z') || ('A' <= c <= 'Z') || c == '_'
    }
  }

  /** `values()`, in declaration order. */
  const Values: seq<CharacterClass> := [DIGITS, WORDS]

  lemma ValuesComplete(k: CharacterClass)
    ensures k in Values
  {
  }

  /** Every digit is a word character. */
  lemma DigitsAreWords(c: char)
    ensures DIGITS.Test(c) ==> WORDS.Test(c)
  {
  }

  /**
   * `fromIdentifier`: a linear search over `values()` that returns the first
   * class whose identifier is `identifier`; `None` stands for the
   * IllegalArgumentException thrown when there is none.
   */
  method FromIdentifier(identifier: char) returns (r: Option<CharacterClass>)
    ensures r.Some? <==> exists k: CharacterClass :: k.Identifier() == identifier
    ensures forall k: CharacterClass :: k.Identifier() == identifier ==> r == Some(k)
  {
    for i := 0 to |Values|
      invariant forall j :: 0 <= j < i ==> Values[j].Identifier() != identifier
    {
      if Values[i].Identifier() == identifier {
        return Some(Values[i]);
      }
    }
    forall k: CharacterClass ensures k.Identifier() != identifier {
      ValuesComplete(k);
    }
    return None;
  }
}
