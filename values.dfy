/** Small value wrappers shared by the other modules. */
module Values {

  /** A nullable value: a column that may hold NULL, or a lookup that may miss. */
  datatype Option<+T> = None | Some(value: T) {
    function GetOr(default: T): T {
      match this
      case Some(v) => v
      case None => default
    }
  }

  /**
   * One field of an update request: `Keep` when the caller did not name the field,
   * `Set(v)` when it did (v may itself be a NULL for a nullable column).
   */
  datatype Field<+T> = Keep | Set(value: T) {
    /** The value the field holds after the update, given the one it held before. */
    function Over(current: T): T {
      match this
      case Keep => current
      case Set(v) => v
    }
  }
}
