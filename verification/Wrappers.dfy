/** Result types shared by the models. */
module Wrappers {

  datatype Option<+T> = None | Some(value: T)

  datatype Result<+T, +E> = Ok(value: T) | Err(error: E)

  /** The list of zero or one values an option holds. */
  function OptionSeq<T>(o: Option<T>): seq<T> {
    match o
    case None => []
    case Some(x) => [x]
  }

  /** The first element of a list, when there is one. */
  function First<T>(s: seq<T>): Option<T> {
    if s == [] then None else Some(s[0])
  }
}
