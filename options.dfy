/** A value that may be absent: TypeScript's `T | null`. */
module Options {

  datatype Option<T> = None | Some(value: T)
}
