/** A slot that is either empty (a NULL pointer in the C program) or holds a value. */
module Options {

  datatype Option<T> = None | Some(value: T)

}
