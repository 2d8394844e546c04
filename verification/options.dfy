/** An optional value, standing for the source's `T | null`. */
module Options {

  datatype Option<+T> = None | Some(value: T)

}
