/** The optional value returned by the matchers: a regex search either finds a match or does not. */
module Wrappers {

  datatype Option<+T> = None | Some(value: T)

}
