/** What the models of both services share: results that may be missing or fail, and maps to lists. */
module Wrappers {

  datatype Option<+T> = None | Some(value: T)

  datatype Result<+T, +E> = Ok(value: T) | Err(error: E)

  function ErrorOf<T, E>(r: Result<T, E>): Option<E> {
    match r
    case Ok(_) => None
    case Err(e) => Some(e)
  }

  /** The list under a key; a missing key reads as the empty list. */
  function ListAt<T>(m: map<string, seq<T>>, key: string): seq<T> {
    if key in m then m[key] else []
  }
}
