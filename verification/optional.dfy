/** The NULL-or-pointer shape of the source's `int* loc` and `int* prev_loc`,
    and of a device slot's `struct file*`. */
module Optional {

  datatype Option<+T> = None | Some(value: T)
}
