/** The optional value used wherever the JavaScript source yields `null`,
    `undefined` or throws instead of producing a value. */
module Options {

  datatype Option<T> = None | Some(value: T)
}
