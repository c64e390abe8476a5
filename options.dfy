/** An optional value: the model's stand-in for a field that may be null or missing. */
module Options {

  datatype Option<+T> = None | Some(value: T)
}
