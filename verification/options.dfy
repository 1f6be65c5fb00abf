/** An optional value: JavaScript's `undefined`/`null` versus a present one. */
module Options {

  datatype Option<+T> = None | Some(value: T)
}
