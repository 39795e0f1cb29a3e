/** Option for values a request body or a query may lack. */
module Wrappers {

  datatype Option<+T> = None | Some(value: T)
}
