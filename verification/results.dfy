/** Outcomes of the packer operations: a value, or the Python exception that
    the operation raises instead of returning. */
module Results {

  /** The exception classes the packers can raise. */
  datatype Exception =
    | StructError     // struct.error: value out of range, or buffer of the wrong size
    | ValueError      // uuid.UUID(bytes=...) given other than 16 bytes
    | NameError       // reference to a name that is not defined
    | AttributeError  // object has no such attribute (method or field)
    | KeyError        // dictionary lookup of an absent key

  datatype Result<+T> = Ok(value: T) | Err(error: Exception)
}
