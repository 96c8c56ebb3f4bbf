/** The failures the cipher routines raise, as values instead of exceptions. */
module CipherErrors {

  /** Which input held the offending character. */
  datatype Input = Key | Text

  /**
   * NonAlphaCharacter: a character outside 'A'..'Z' (Vigenère and Caesar), with the two hex
   *   digits of the offending byte that the message shows;
   * OutOfRange: a symbol not below the alphabet size (generalized Vigenère);
   * NonAlphaText: the whole text failed the upper-case check (Rail Fence);
   * NoRails: a Rail Fence key of zero rails.
   */
  datatype CipherError =
    | NonAlphaCharacter(found: Input, hex: string)
    | OutOfRange(found: Input)
    | NonAlphaText
    | NoRails

  datatype Result<T> = Ok(value: T) | Err(error: CipherError)
}
