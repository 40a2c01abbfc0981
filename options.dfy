/** A nullable value: None stands for a C NULL pointer. */
module Options {
  datatype Option<+T> = None | Some(value: T)
}
