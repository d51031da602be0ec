/** The optional value used where `main.py` has `None` or a missing result. */
module Options {

  datatype Option<+T> = None | Some(value: T)
}
