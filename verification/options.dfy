/** A value that may be missing. The dashboard's table marks missing cells with NaN
    (an unparseable date, an undefined correlation, an empty group mean); the model
    writes such a cell as `None`. */
module Options {
  datatype Option<+T> = None | Some(value: T)
}
