/** Optional values, used for protobuf field presence, null pointers and failing parses. */
module Wrappers {

  datatype Option<+T> = None | Some(value: T) {

    function GetOr(default: T): T {
      match this
      case Some(v) => v
      case None => default
    }
  }

  /** A singular protobuf field after merging `newer` into `older`: the last one wins. */
  function LastWins<T>(older: Option<T>, newer: Option<T>): Option<T> {
    if newer.Some? then newer else older
  }
}
