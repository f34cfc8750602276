/** Nullable values, thrown exceptions and the argument of `equals(Object)`, as values. */
module Outcomes {

  /** A Java reference that may be null: `None` is null. */
  datatype Option<+T> = None | Some(value: T)

  /** The exceptions the core throws, by kind. */
  datatype Failure =
    | NullArgument                    // Arguments.requireNotNull, or a null dereference
    | NonPositiveModulus              // Arguments.requireGreater in the modulo-n constructor
    | NotAMember(value: Option<int>)  // getElement: the structure does not contain the value it names
    | Unsupported                     // UnsupportedOperationException from an optional query
    | NotInvertible                   // ArithmeticException from BigInteger.modInverse

  /** A call that returns a value or throws. */
  datatype Result<+T> = Ok(value: T) | Err(error: Failure)

  /** The argument of `equals(Object other)`: null, an object of the receiver's own runtime class,
      or an object of some other class. */
  datatype JavaObject<+T> = Null | SameClass(obj: T) | OtherClass
}
