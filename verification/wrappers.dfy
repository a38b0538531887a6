/** Optional values: Java's nullable references (an absent receiver
    expression, the result of Map.get on a missing key). */
module Wrappers {

  datatype Option<+T> = None | Some(value: T)
}
