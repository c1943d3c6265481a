/** The optional value that stands for a JavaScript `null` (or a `NaN` from
    `parseInt`) wherever the page keeps "maybe a value". */
module Wrappers {

  datatype Option<+T> = None | Some(value: T)
}
