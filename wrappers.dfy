/** The optional-value type used wherever the crawlers test a value against `None`. */
module Wrappers {

  datatype Option<+T> = None | Some(value: T)
}
