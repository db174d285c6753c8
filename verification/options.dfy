/** The optional value returned by lookups and scans: Swift's `T?`. */
module Options {

  datatype Option<T> = None | Some(value: T)

}
