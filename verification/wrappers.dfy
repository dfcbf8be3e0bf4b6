/** A value that may be absent, used wherever the program returns "nothing"
    (a failed parse, a creation event that attaches no component). */
module Wrappers {
  datatype Option<+T> = None | Some(value: T)
}
