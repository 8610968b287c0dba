/** The optional value used across the model: JavaScript's `undefined`
    (or a lookup that found nothing) is `None`. */
module Wrappers {

  datatype Option<+T> = None | Some(value: T)
}
