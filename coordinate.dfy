/** An immutable pair of Java `int` coordinates. */
module Coordinates {
  import opened JavaInt
  import opened JavaLang
  import opened Collections

  datatype Coordinate = Coordinate(x: i32, y: i32)
  {
    /** Java's `hashCode`: `x + 0x10000 * y`, each operation in wrapping `int` arithmetic. */
    function HashCode(): (h: i32)
      ensures h == Wrap(x + 0x10000 * y)
    {
      WrapInner(0x10000 * y, x);
      Wrap(x + Wrap(0x10000 * y))
    }

    /** Java's `equals` on two coordinates: both components agree. */
    function Equals(other: Coordinate): (b: bool)
      ensures b <==> this == other
    {
      x == other.x && y == other.y
    }

    /** Java's `toString`: `"(" + x + ", " + y + ")"`. Reading the rendering back gives this coordinate. */
    function ToString(): (s: string)
      ensures ParseCoordinate(s) == Some(this)
    {
      RenderedParts(IntToString(x), IntToString(y));
      "(" + IntToString(x) + ", " + IntToString(y) + ")"
    }
  }

  /** The upper left corner. */
  const ORIGIN: Coordinate := Coordinate(0, 0)

  /** ORIGIN is the corner (0, 0) and prints as "(0, 0)". */
  lemma OriginIsCorner()
    ensures ORIGIN.x == 0 && ORIGIN.y == 0
    ensures ORIGIN.ToString() == "(0, 0)"
    ensures ORIGIN.HashCode() == 0
  {
  }

  predicate IsDigit(c: char)
  {
    '0' <= c <= '9'
  }

  function DigitChar(d: nat): (c: char)
    requires d < 10
  {
    ('0' as int + d) as char
  }

  /** The decimal digits of `n`, most significant first, without leading zeros. */
  function NatToString(n: nat): string
    decreases n
  {
    if n < 10 then [DigitChar(n)] else NatToString(n / 10) + [DigitChar(n % 10)]
  }

  /**
   * Java's decimal rendering of an integer (`Integer.toString`): a well-formed decimal
   * numeral, without a comma, that reads back to `n`.
   */
  function IntToString(n: int): (s: string)
    ensures WellFormedInt(s) && ParseInt(s) == n
    ensures forall i :: 0 <= i < |s| ==> s[i] != ','
  {
    if n < 0 then
      NatToStringRoundTrip(-n);
      assert ("-" + NatToString(-n))[1..] == NatToString(-n);
      "-" + NatToString(-n)
    else
      NatToStringRoundTrip(n);
      NatToString(n)
  }

  predicate AllDigits(s: string)
  {
    forall i :: 0 <= i < |s| ==> IsDigit(s[i])
  }

  /** The value of a string of decimal digits. */
  function ParseNat(s: string): nat
    requires AllDigits(s)
  {
    if s == [] then 0 else ParseNat(s[..|s| - 1]) * 10 + (s[|s| - 1] as int - '0' as int)
  }

  /** A non-empty string of decimal digits, optionally preceded by a minus sign. */
  predicate WellFormedInt(s: string)
  {
    |s| > 0 && if s[0] == '-' then AllDigits(s[1..]) else AllDigits(s)
  }

  /** The value of an optionally negated string of decimal digits. */
  function ParseInt(s: string): int
    requires WellFormedInt(s)
  {
    if s[0] == '-' then 0 - ParseNat(s[1..]) as int else ParseNat(s)
  }

  /** Reading back the digits of `n` gives `n`. */
  lemma {:induction false} NatToStringRoundTrip(n: nat)
    ensures |NatToString(n)| > 0 && AllDigits(NatToString(n))
    ensures ParseNat(NatToString(n)) == n
  {
    if n >= 10 {
      NatToStringRoundTrip(n / 10);
      var s := NatToString(n);
      assert s[..|s| - 1] == NatToString(n / 10);
    }
  }

  /** `equals` is exactly value equality, so it is reflexive and symmetric. */
  lemma EqualsIsEquality(a: Coordinate, b: Coordinate)
    ensures a.Equals(b) <==> a == b
    ensures a.Equals(a)
    ensures a.Equals(b) ==> b.Equals(a)
  {
  }

  /** `equals(Object)` as written: `null` passes the cast and reading `otherC.x` throws. */
  function EqualsAsWritten(self: Coordinate, other: Reference<Coordinate>): (a: Answer)
    ensures a == ThrowsNullPointer <==> other == Null
    ensures a == Returns(true) <==> other == Instance(self)
  {
    match other
    case Instance(c) => Returns(self.Equals(c))
    case OtherClass => Returns(false)
    case Null => ThrowsNullPointer
  }

  /** `equals(null)` throws instead of answering false. */
  lemma EqualsNullThrows(self: Coordinate)
    ensures EqualsAsWritten(self, Null) == ThrowsNullPointer
  {
  }

  /** `equals(Object)` as documented: true iff the other object is a coordinate with the same x and y. */
  predicate EqualsObject(self: Coordinate, other: Reference<Coordinate>)
  {
    other.Instance? && self.Equals(other.value)
  }

  /** The corrected `equals` never throws, answers false for `null`, and agrees with the written one elsewhere. */
  lemma EqualsObjectContract(self: Coordinate, other: Reference<Coordinate>)
    ensures EqualsObject(self, other) <==> other == Instance(self)
    ensures other != Null ==> EqualsAsWritten(self, other) == Returns(EqualsObject(self, other))
  {
  }

  /** The hash code is `x + 0x10000 * y` taken modulo 2^32, and equal coordinates hash alike. */
  lemma HashCodeIsShiftedSum(a: Coordinate, b: Coordinate)
    ensures a.HashCode() == Wrap(a.x + 0x10000 * a.y)
    ensures a.Equals(b) ==> a.HashCode() == b.HashCode()
  {
    WrapInner(0x10000 * a.y, a.x);
  }

  /** On the quarter plane `0 <= x < 0x10000`, `0 <= y < 0x8000` no two coordinates share a hash code. */
  lemma HashCodeInjectiveOnSmall(a: Coordinate, b: Coordinate)
    requires 0 <= a.x < 0x10000 && 0 <= a.y < 0x8000
    requires 0 <= b.x < 0x10000 && 0 <= b.y < 0x8000
    requires a.HashCode() == b.HashCode()
    ensures a == b
  {
    HashCodeIsShiftedSum(a, b);
    HashCodeIsShiftedSum(b, a);
    assert a.x + 0x10000 * a.y == b.x + 0x10000 * b.y;
  }

  /** The position of the first comma in `s` (`|s|` when there is none). */
  function IndexOfComma(s: string): nat
  {
    if s == [] || s[0] == ',' then 0 else 1 + IndexOfComma(s[1..])
  }

  /** A comma-free prefix pushes the first comma of what follows it back by its length. */
  lemma {:induction false} CommaFollows(p: string, rest: string)
    requires forall i :: 0 <= i < |p| ==> p[i] != ','
    ensures IndexOfComma(p + rest) == |p| + IndexOfComma(rest)
  {
    if p != [] {
      var whole := p + rest;
      assert whole[0] == p[0] && p[0] != ',';
      assert whole[1..] == p[1..] + rest;
      CommaFollows(p[1..], rest);
      assert IndexOfComma(whole) == 1 + IndexOfComma(whole[1..]);
    } else {
      assert p + rest == rest;
    }
  }

  /** Reads back a rendering `"(x, y)"`: both components as decimal `int`s, or None when `s` is not one. */
  function ParseCoordinate(s: string): Option<Coordinate>
  {
    var k := IndexOfComma(s);
    if |s| < 2 || s[0] != '(' || s[|s| - 1] != ')' || k < 1 || k + 3 > |s| || s[k + 1] != ' ' then None
    else
      var xs, ys := s[1..k], s[k + 2..|s| - 1];
      if !WellFormedInt(xs) || !WellFormedInt(ys) then None
      else
        var x, y := ParseInt(xs), ParseInt(ys);
        if -0x8000_0000 <= x < 0x8000_0000 && -0x8000_0000 <= y < 0x8000_0000 then Some(Coordinate(x, y)) else None
  }

  /** Where the two components sit in a rendering `"(" + x + ", " + y + ")"` whose `x` holds no comma. */
  lemma RenderedParts(x: string, y: string)
    requires forall i :: 0 <= i < |x| ==> x[i] != ','
    ensures var s := "(" + x + ", " + y + ")";
      IndexOfComma(s) == 1 + |x| && |s| == |x| + |y| + 4 && s[1..1 + |x|] == x && s[3 + |x|..|s| - 1] == y
  {
    var s := "(" + x + ", " + y + ")";
    assert s == ("(" + x) + (", " + y + ")");
    CommaFollows("(" + x, ", " + y + ")");
  }

  /** The rendering determines the coordinate: different coordinates print differently. */
  lemma ToStringInjective(a: Coordinate, b: Coordinate)
    requires a.ToString() == b.ToString()
    ensures a == b
  {
    assert Some(a) == ParseCoordinate(a.ToString()) == ParseCoordinate(b.ToString()) == Some(b);
  }
}
