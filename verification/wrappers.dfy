/** The presence wrapper used throughout the model: `Option` stands for a
    nullable Java reference (`Integer salary`) and for `java.util.Optional`. */
module Wrappers {

  datatype Option<+T> = None | Some(value: T)
}
