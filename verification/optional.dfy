/** PHP's `null` for a value that may be missing. */
module Optional {

  /** A value that is there (`Some`) or PHP's `null` (`None`). The three
      members below let `:-` stop at the first `None`. */
  datatype Option<+T> = None | Some(value: T) {

    predicate IsFailure() {
      this == None
    }

    function PropagateFailure<U>(): Option<U>
      requires IsFailure()
    {
      None
    }

    function Extract(): T
      requires !IsFailure()
    {
      value
    }
  }
}
