/** A failure-compatible optional value, used for every operation of the
    model that can refuse its input (a write that does not fit, a jump that
    cannot be patched, a frame that cannot be parsed). */
module Options {

  datatype Option<+T> = None | Some(value: T) {

    predicate IsFailure() {
      None?
    }

    function PropagateFailure<U>(): Option<U>
      requires None?
    {
      None
    }

    function Extract(): T
      requires Some?
    {
      value
    }
  }
}
