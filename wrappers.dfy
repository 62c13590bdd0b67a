/** Optional values. `None` stands for a missing cell: pandas' NaN, SQL NULL, or Python's None. */
module Wrappers {

  datatype Option<+T> = None | Some(value: T) {

    /** The value, or `default` when missing (pandas' `fillna(default)`). */
    function GetOr(default: T): T {
      match this
      case Some(v) => v
      case None => default
    }
  }
}
