/** Option stands for a Java reference that may be null; Result for a value or a thrown exception. */
module Wrappers {

  datatype Option<+T> = None | Some(value: T)

  datatype Result<+R, +E> = Success(value: R) | Failure(error: E)

  /** Java's Map.getOrDefault. */
  function GetOrDefault<K, V>(m: map<K, V>, key: K, default: V): V
  {
    if key in m then m[key] else default
  }
}
