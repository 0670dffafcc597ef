/** Values shared by the modules of the upload handler model. */
module Common {
  datatype Option<T> = None | Some(value: T)

  /** The bytes of an object or of an encoded image; their format is not modelled. */
  type Bytes = seq<bv8>
}
