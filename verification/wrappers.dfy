/** The optional-value datatype used throughout the model: `None` stands for
    JavaScript's `undefined`/`null` or for a search that found nothing. */
module Wrappers {

  datatype Option<+T> = None | Some(value: T)
}
