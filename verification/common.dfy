/** Values shared by every part of the model. */
module Common {

  /** A value that may be absent: Python's `None` versus a present value. */
  datatype Option<+T> = None | Some(value: T) {

    /** The present value, or `default` when absent. */
    function GetOr(default: T): T {
      match this
      case Some(v) => v
      case None => default
    }
  }

  /** A process identifier, as `int(...)` produces it from a string of digits. */
  type Pid = nat

  /** Every timestamp and duration of the model is an integer number of milliseconds. */
  const MillisPerSecond: int := 1000
}
