/** The optional value used wherever the engine may produce `undefined`
    (no start marker for a label, no status frame received yet). */
module Wrappers {

  datatype Option<+T> = None | Some(value: T)
}
