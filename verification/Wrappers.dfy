/** Result datatypes shared by the other modules. */
module Wrappers {

  /** ConstexprOptional: a value or nothing. */
  datatype Option<+T> = None | Some(value: T)

  /** A constexpr evaluation either returns or is stopped by an X_ASSERT that does not hold. */
  datatype Checked<+T> = AssertionFailed | Returned(value: T)
}
