/** The optional value used wherever the page may or may not find something:
    an element looked up by id, a key read from storage, a section matched by
    the scroll-spy. */
module Wrappers {

  datatype Option<T> = None | Some(value: T)
}
