/** Python's `None`-or-value, as used for a PDF page's text and the page's `text` variable. */
module Wrappers {

  datatype Option<+T> = None | Some(value: T)
}
