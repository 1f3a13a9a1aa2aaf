/** The optional value used wherever the widget works with `None`: a failed
    fetch, a cancelled dialog, a threshold that does not parse. */
module Options {
  datatype Option<+T> = None | Some(value: T)
}
