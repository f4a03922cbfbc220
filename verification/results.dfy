/** Failure-compatible wrappers and the error taxonomy of the cafe-ranking
    pipeline. Each error stands for the Python exception the program raises
    at that point; none of them is caught, so each one ends the run. */
module Results {

  datatype Option<+T> = None | Some(value: T)

  datatype Result<+T, +E> = Ok(value: T) | Err(error: E) {

    predicate IsFailure() {
      Err?
    }

    function PropagateFailure<U>(): Result<U, E>
      requires Err?
    {
      Err(error)
    }

    function Extract(): T
      requires Ok?
    {
      value
    }
  }

  datatype Error =
    /** The geocoder's "pos" string did not split into exactly two parts
        (ValueError from the two-name unpack). */
    | PosNotTwoParts(parts: nat)
    /** The geocoder found nothing and the caller subscripted `None`
        (TypeError). */
    | NoOrigin
    /** A coordinate string of the origin is not a float literal
        (ValueError from `float`). */
    | NotANumber(text: string)
    /** Cafe number `index` has fewer than two coordinates (IndexError). */
    | MissingCoordinate(index: nat)
}
