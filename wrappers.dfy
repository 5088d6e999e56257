/** The nullable values of the frontend (`T | null`) as an Option. */
module Wrappers {

  datatype Option<+T> = None | Some(value: T)

}
