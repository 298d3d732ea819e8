/** The absent-or-present value used where the page reads something that may be missing
    (a stored preference, an HTML attribute). */
module Options {
  datatype Option<+T> = None | Some(value: T)
}
