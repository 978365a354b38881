/** The failure-compatible Option type used where a PHP function returns
    `false` instead of a value (strpos, a regex that does not match). */
module Wrappers {

  datatype Option<+T> = None | Some(value: T)
}
