/** The optional value used wherever the scraper's library calls may return nothing. */
module Wrappers {

  datatype Option<+T> = None | Some(value: T)
}
