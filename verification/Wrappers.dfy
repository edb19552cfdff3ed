/** The two result shapes of the Rust sources: `Option` and `Result`. */
module Wrappers {
  datatype Option<+T> = None | Some(value: T)

  datatype Result<+T, +E> = Ok(value: T) | Err(error: E)

  /** The trap codes raised by the operations modelled here. */
  datatype TrapCode = MemoryOutOfBounds | IntegerOverflow | BadConversionToInteger
}
