/** What a Java `equals(Object)` may be handed, and how a call to it may end. */
module JavaLang {

  /** The argument of an `equals(Object other)` declared in class T: `null`, an instance of T, or an object of another class. */
  datatype Reference<T> = Null | Instance(value: T) | OtherClass

  /** How a Java boolean method call ends: with a value, or with a `NullPointerException`. */
  datatype Answer = Returns(value: bool) | ThrowsNullPointer
}
