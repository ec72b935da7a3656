/** Absent results and reported errors, used in place of Java's null returns and exceptions. */
module Wrappers {

  /** `None` stands for a Java method returning null. */
  datatype Option<+T> = None | Some(value: T)

  /** `Err` stands for an exception thrown to the caller; each method states what
      it changed before the throw. */
  datatype Result<+T, +E> = Ok(value: T) | Err(error: E)
}
