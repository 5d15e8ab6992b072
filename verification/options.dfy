/** The optional value returned by Rust's `Iterator::next`, `str::find`
    and `Iterator::position`. */
module Options {

  datatype Option<+T> = None | Some(value: T)
}
