/** An optional value: a configured start string, or the outcome of a bounded derivation. */
module Optional {

  datatype Option<+T> = None | Some(value: T)
}
