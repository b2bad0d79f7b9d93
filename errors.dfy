/** Failures of the name generator and the result type that carries them. */
module Errors {

  /** The ways one call of the generator can fail.
      UnknownCharacter: a character of the window is not in the vocabulary
        (Python's ValueError from `list.index`).
      IndexOutOfRange: a drawn index is not a position of the vocabulary
        (Python's IndexError from `possible_chars[i]`).
      DrawsExhausted: the finite stream of draws ended before a boundary was drawn;
        this stands in for the source's unbounded `while True`. */
  datatype Error =
    | UnknownCharacter(c: char)
    | IndexOutOfRange(index: nat)
    | DrawsExhausted

  datatype Result<T> = Ok(value: T) | Err(error: Error)

  datatype Option<T> = None | Some(value: T)
}
