/** Small shared vocabulary: optional values, user ids and clock readings. */
module Common {

  datatype Option<+T> = None | Some(value: T) {
    /** The value, or `default` when absent (Python's `dict.get(key, default)`). */
    function GetOr(default: T): T {
      match this
      case Some(v) => v
      case None => default
    }
  }

  /** A user's primary key. */
  type UserId = nat

  /** A reading of `timezone.now()`, supplied by the caller. */
  type Time = int
}
