/** Optional values: `None` stands for the source's "no value" encodings
    (an empty `std::string`, `std::string::npos`, or the `size_t(-1)`
    score sentinel, depending on where it is used). */
module Wrappers {

  datatype Option<+T> = None | Some(value: T) {

    /** The wrapped value, or `default` when there is none. */
    function GetOr(default: T): T {
      match this
      case Some(v) => v
      case None => default
    }
  }
}
