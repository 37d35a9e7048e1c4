/** The optional-value datatype used for results that may be absent. */
module Wrappers {

  datatype Option<+T> = None | Some(value: T) {

    /** The value as a sequence of zero or one elements. */
    function ToSeq(): (s: seq<T>)
      ensures Some? ==> s == [value]
      ensures None? ==> s == []
    {
      match this
      case Some(v) => [v]
      case None => []
    }
  }
}
