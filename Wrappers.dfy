/** Carrier datatypes shared by the other modules. */
module Wrappers {

  /** An optional value: `undefined`/`null` on one side, a present value on the other. */
  datatype Option<+T> = None | Some(value: T) {

    /** The value, or `default` when there is none. */
    function GetOr(default: T): T {
      match this
      case Some(v) => v
      case None => default
    }
  }

  /** The outcome of one action on a store: the store afterwards and the status text the
      assistant logs as a system message. */
  datatype Update<T> = Update(store: T, text: string)
}
