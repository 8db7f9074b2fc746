/** A value that may be absent: used for the heap's "no parent" slot and for the
    running maximum before the first elimination. */
module Optional {
  datatype Option<+T> = None | Some(value: T)
}
