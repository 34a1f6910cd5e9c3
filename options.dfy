/** The optional value the renderer receives as the selected match index. */
module Options {
  datatype Option<+T> = None | Some(value: T)
}
