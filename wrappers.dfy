/** The optional value used wherever the scraper yields `None` for an absent field. */
module Wrappers {

  datatype Option<+T> = None | Some(value: T)
}
