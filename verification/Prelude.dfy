/** The one datatype every module of the model shares. */
module Prelude {
  datatype Option<+T> = None | Some(value: T)
}
