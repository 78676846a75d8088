/** The absent-or-present value used throughout the model: a form field that
    is missing (`formData.get` returning `null`), an optional attribute, an
    exception that may or may not be thrown. */
module Wrappers {
  datatype Option<+T> = None | Some(value: T)
}
