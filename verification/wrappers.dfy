/** Optional values, results, and the Java exceptions the modelled code can raise. */
module Wrappers {

  /** A value that may be absent: stands for a Java reference that may be null,
      or for a java.util.Optional. */
  datatype Option<+T> = None | Some(value: T)

  /** Either a value or the exception the Java code would have thrown instead. */
  datatype Result<+R, +E> = Success(value: R) | Failure(error: E)

  /** The runtime exceptions the modelled methods can throw. */
  datatype Exception =
    | IndexOutOfBounds          // ArrayIndexOutOfBoundsException from indexing a split result
    | NullPointer               // NullPointerException from dereferencing an absent body
    | DuplicateKey(key: string) // IllegalStateException from Collectors.toMap on a repeated key
}
