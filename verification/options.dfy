/** A value that may be absent. In this model it stands for a floating-point
    sample that may be NaN (`None`), and for a statistics record that may not
    exist because a directory held no recordings. */
module Options {

  datatype Option<+T> = None | Some(value: T)
}
