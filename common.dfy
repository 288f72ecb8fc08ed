/** Values shared by every part of the model: optional values, results, and
    the errors the library raises (build/discoverable.js). */
module Common {

  /** `null`/`undefined` versus a present value. */
  datatype Option<+T> = None | Some(value: T)

  /** A call that either returns a value or throws / rejects with an error. */
  datatype Result<+R> = Success(value: R) | Failure(error: Error)

  /** Every error the library raises. */
  datatype Error =
    | ReadFailed              // readdir or stat failed while walking the registry
    | TagsIncorrect(service: string)
    | NoMatch(service: string) // `types[1]` read on a null regex match (a TypeError)
    | PathNotString
    | TimeoutNotNumber
    | ServiceNamesNotArray    // findServices
    | ServiceObjectsNotArray  // publishServices
    | NoUsableInterface
    | PropertyOfNull          // a property read on a `null` or `undefined` service object (a TypeError)

  /** `r` with `prefix` in front of its value: what a list that already
      holds `prefix` holds after the pushes that produced `r`. */
  function Prefixed<T>(prefix: seq<T>, r: Result<seq<T>>): Result<seq<T>>
  {
    match r
    case Success(items) => Success(prefix + items)
    case Failure(err) => Failure(err)
  }

  /** A caller-supplied argument that must be an array: either one, or some other value. */
  datatype ListArg<T> = List(items: seq<T>) | NotAList
}
