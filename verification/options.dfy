/** An optional value. `None` stands for a Python exception that aborts the
    training run; `Some` carries the value the code computes otherwise. */
module Options {

  datatype Option<+T> = None | Some(value: T)

}
