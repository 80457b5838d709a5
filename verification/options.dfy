/** A parse result that may be missing: `int.TryParse` either yields a
    value or reports failure. */
module Options {

  datatype Option<T> = None | Some(value: T) {

    /** The parsed value, or `fallback` when the parse failed (the battery
        query's `-1`). */
    function ValueOr(fallback: T): T {
      match this
      case Some(v) => v
      case None => fallback
    }
  }
}
