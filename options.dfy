/** An optional value: what the solver's Java code expresses with a null reference. */
module Options {
  datatype Option<T> = None | Some(value: T)
}
