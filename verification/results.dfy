/** Failure-compatible wrappers shared by every stage of the decoder.

    The Go program stops the whole process on the first problem, either with
    `log.Fatal` or with a runtime panic (a slice bound, `make` with a negative
    length, an index out of range).  Here each of those becomes an `Err` value
    naming what went wrong, so that the stages compose with `:-`.
 */
module Results {

  datatype Option<+T> = None | Some(value: T)

  /** Why a decode stopped. */
  datatype Error =
    | ReadFailed             // `File.ReadAt` reported an error the caller does not tolerate
    | NegativeLength         // `make([]byte, n)` with n < 0
    | BadVarint(code: int)   // `binary.Uvarint` returned a byte count <= 0
    | SliceOutOfRange        // a `buf[lo:hi]` with hi < lo or hi > cap(buf); every buffer here is a fresh `make` or a suffix of one, so cap is len
    | UnmarshalFailed        // `proto.Unmarshal` rejected a record body
    | DepthExceeded          // the tree builder ran out of depth (unbounded recursion in Go)
    | IndexOutOfRange        // `paths[i]` with i >= len(paths)

  datatype Result<+T> = Ok(value: T) | Err(error: Error) {

    predicate IsFailure() {
      Err?
    }

    function PropagateFailure<U>(): Result<U>
      requires Err?
    {
      Err(error)
    }

    function Extract(): T
      requires Ok?
    {
      value
    }
  }

  /** `Some(v)` becomes `Ok(v)`, `None` becomes the given error. */
  function Need<T>(o: Option<T>, e: Error): (r: Result<T>)
    ensures r.Ok? <==> o.Some?
    ensures r.Ok? ==> r.value == o.value
    ensures r.Err? ==> r.error == e
  {
    match o
    case Some(v) => Ok(v)
    case None => Err(e)
  }
}
