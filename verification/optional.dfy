/** A value that may be absent: the result of a classification with no
    matching rule, or of an element that is not rendered. */
module Optional {

  datatype Option<+T> = None | Some(value: T)
}
