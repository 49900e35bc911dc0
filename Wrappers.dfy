/** An optional value: an absent row, a rejected argument, an id that cannot be allocated. */
module Wrappers {
  datatype Option<T> = Nothing | Some(value: T)
}
