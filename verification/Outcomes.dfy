/** Results shared by the modules: a value that may be missing, and a lookup that may fail. */
module Outcomes {

  datatype Option<T> = None | Some(value: T)

  datatype Found<T> = Present(value: T) | Absent | Failed
}
