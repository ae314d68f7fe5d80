/** A present-or-absent value: `undefined` fields, an unset cache, an unset style height. */
module Options {

  datatype Option<+T> = None | Some(value: T)

}
