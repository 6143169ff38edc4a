/** A value that may be absent: a lookup that finds nothing, a read past the
    end of the input. */
module Optional {

  datatype Option<T> = None | Some(value: T)
}
