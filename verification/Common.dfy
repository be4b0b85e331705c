/** Types every component uses. */
module Common {

  datatype Option<+T> = None | Some(value: T)
}
