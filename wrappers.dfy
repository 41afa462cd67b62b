/** The one failure-carrying datatype the model needs: a lookup that may miss. */
module Wrappers {

  datatype Option<+T> = None | Some(value: T)

}
