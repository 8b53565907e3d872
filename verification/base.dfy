/** Shared vocabulary: an optional value, standing for a nullable column,
    a key that may be absent, or a parse that may fail. */
module Base {

  datatype Option<+T> = None | Some(value: T)

}
