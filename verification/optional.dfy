/** An optional value: the Go code's `(value, err)` pairs whose error carries
    no information of its own (a failed `strconv.Atoi`, a failed `time.Parse`)
    become `None`. */
module Optional {

  datatype Option<+T> = None | Some(value: T) {

    /** The wrapped value, or `default` when there is none. */
    function GetOr(default: T): T {
      match this
      case Some(v) => v
      case None => default
    }
  }
}
