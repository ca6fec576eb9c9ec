/** The optional value used wherever the page may lack an attribute. */
module Wrappers {
  /** `None` stands for an absent attribute (`undefined` or `null` in the page). */
  datatype Option<T> = None | Some(value: T)
}
