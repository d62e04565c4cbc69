/** The optional-value shape every stage uses for its failure path, and the byte type. */
module Base {
  /** `None` stands for a parse that the program aborts on (`unwrap` on an `Err`). */
  datatype Option<+T> = None | Some(value: T)

  /** A `u8`. */
  type Byte = b: int | 0 <= b < 256
}
