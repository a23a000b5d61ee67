/** The optional value that every structure of the repository returns for "absent". */
module Wrappers {

  datatype Option<T> = None | Some(value: T)

}
