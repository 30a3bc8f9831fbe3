/** The immutable description of one suitcase: a one-letter name and its two extents. */
module Suitcases {
  import opened JavaInt
  import opened JavaLang

  /**
   * A suitcase named `name` that covers `length` columns (its horizontal extent) and
   * `width` rows (its vertical extent). The getters of the class are the destructors
   * `name`, `length` and `width`.
   */
  datatype Suitcase = Suitcase(name: char, length: i32, width: i32)
  {
    /** There is no point in rotating a suitcase whose two extents agree. */
    function IsSquare(): (b: bool)
      ensures b == (Turned() == this)
    {
      length == width
    }

    /** The suitcase turned by 90 degrees: same name, extents exchanged. */
    function Turned(): (t: Suitcase)
      ensures t.name == name && t.Area() == Area()
    {
      Suitcase(name, width, length)
    }

    /** Java's `equals` on two suitcases: same name, same length, same width. */
    function Equals(other: Suitcase): (b: bool)
      ensures b <==> this == other
    {
      name == other.name && length == other.length && width == other.width
    }

    /**
     * Java's `hashCode`: `Character.hashCode(name) + length + width`, evaluated left to
     * right in `int` arithmetic (each addition wraps).
     */
    function HashCode(): (h: i32)
      ensures h == Wrap(name as int + length + width)
    {
      WrapInner(name as int + length, width);
      Wrap(Wrap(name as int + length) + width)
    }

    /** The number of grid cells the suitcase covers. */
    function Area(): int
    {
      length * width
    }
  }

  /** Turning twice gives back the original suitcase. */
  lemma TurnedTwice(s: Suitcase)
    ensures s.Turned().Turned() == s
  {
  }

  /** A suitcase is square exactly when turning it changes nothing; in particular a square suitcase turns into itself. */
  lemma SquareIffTurnedSame(s: Suitcase)
    ensures s.IsSquare() <==> s.Turned() == s
  {
  }

  /** Turning keeps the name and the area. */
  lemma TurnedKeepsNameAndArea(s: Suitcase)
    ensures s.Turned().name == s.name
    ensures s.Turned().Area() == s.Area()
  {
  }

  /** `equals` is exactly value equality, so it is reflexive, symmetric and transitive. */
  lemma EqualsIsEquality(a: Suitcase, b: Suitcase)
    ensures a.Equals(b) <==> a == b
    ensures a.Equals(a)
    ensures a.Equals(b) ==> b.Equals(a)
  {
  }

  /**
   * `equals(Object)` as written: the cast of `null` succeeds, so reading `otherSC.name`
   * throws; an object of another class fails the cast and answers false.
   */
  function EqualsAsWritten(self: Suitcase, other: Reference<Suitcase>): (a: Answer)
    ensures a == ThrowsNullPointer <==> other == Null
    ensures a == Returns(true) <==> other == Instance(self)
  {
    match other
    case Instance(s) => Returns(self.Equals(s))
    case OtherClass => Returns(false)
    case Null => ThrowsNullPointer
  }

  /** `equals(null)` throws instead of answering false. */
  lemma EqualsNullThrows(self: Suitcase)
    ensures EqualsAsWritten(self, Null) == ThrowsNullPointer
  {
  }

  /** `equals(Object)` as documented: true iff the other object is a suitcase with the same data. */
  predicate EqualsObject(self: Suitcase, other: Reference<Suitcase>)
  {
    other.Instance? && self.Equals(other.value)
  }

  /** The corrected `equals` never throws, answers false for `null`, and agrees with the written one elsewhere. */
  lemma EqualsObjectContract(self: Suitcase, other: Reference<Suitcase>)
    ensures EqualsObject(self, other) <==> other == Instance(self)
    ensures other != Null ==> EqualsAsWritten(self, other) == Returns(EqualsObject(self, other))
  {
  }

  /** The hash code is the 32-bit sum of the name's code and both extents. */
  lemma HashCodeIsSum(s: Suitcase)
    ensures s.HashCode() == Wrap(s.name as int + s.length + s.width)
  {
    WrapInner(s.name as int + s.length, s.width);
  }

  /** Equal suitcases hash alike, and turning a suitcase keeps its hash code. */
  lemma HashCodeConsistent(a: Suitcase, b: Suitcase)
    ensures a.Equals(b) ==> a.HashCode() == b.HashCode()
    ensures a.Turned().HashCode() == a.HashCode()
  {
    HashCodeIsSum(a);
    HashCodeIsSum(a.Turned());
    assert a.name as int + a.width + a.length == a.name as int + a.length + a.width;
  }
}
