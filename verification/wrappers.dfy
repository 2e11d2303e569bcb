/** The optional value used wherever the generator or the runtime answers
    "found / not found" (std::string::npos, a null pointer, JavaScript's
    undefined). */
module Wrappers {

  datatype Option<+T> = None | Some(value: T)
}
