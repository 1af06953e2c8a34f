/** An optional value: the model's stand-in for a JavaScript `undefined` or `null`. */
module Optional {
  datatype Option<+T> = None | Some(value: T) {
    /** The wrapped value, or `default` when there is none (the `??` operator). */
    function GetOr(default: T): T {
      match this
      case Some(v) => v
      case None => default
    }
  }
}
