/** Values shared by the models and the controllers of the library backend. */
module Types {

  /** A path or field that may be absent (`undefined` in a request body). */
  datatype Option<T> = None | Some(value: T) {
    function GetOr(default: T): T {
      match this
      case Some(v) => v
      case None => default
    }
  }

  /** The outcome of a validation or a write. */
  datatype Result<T, E> = Success(value: T) | Failure(error: E)

  /** Document identities; the database's ObjectId generator is a counter here. */
  type BookId = nat

  /** A due date, as the milliseconds the request carries. */
  type Date = int

  /** What a handler answers: the HTTP status, the envelope's message and its data (null is None). */
  datatype Reply<T> = Reply(status: nat, message: string, data: Option<T>)
}
