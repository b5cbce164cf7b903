/** The optional-value wrapper the rest of the model uses for absent fields and failed fetches. */
module Wrappers {

  datatype Option<+T> = None | Some(value: T)
}
