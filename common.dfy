/** Shared vocabulary of the converter model: bytes, optional values, results
    and the exceptions the converter lets escape. */
module Common {

  /** A .NET `byte`. */
  newtype byte = x: int | 0 <= x < 256

  datatype Option<+T> = None | Some(value: T)

  datatype Result<+T, +E> = Success(value: T) | Failure(error: E)

  /** The exceptions that can be thrown inside the converter. None of them is
      caught anywhere, so each one ends the whole run. */
  datatype Failure =
    | InputTooShort     // LZMA.Decompress: fewer than 5 property bytes
    | BadProperties     // the LZMA decoder refuses the 5 property bytes
    | CantRead          // LZMA.Decompress: the stream ends inside the 8 length bytes
    | DataError         // the LZMA decoder refuses the compressed body
    | IndexOutOfRange   // key[0] or key[1] on a registry key that is too short
    | FormatError       // Int32.Parse: not an integer
    | Overflow          // Int32.Parse: outside the 32-bit range
    | BadBase64         // Convert.FromBase64String refuses the screenshot text
    | BadDate           // DateTime.Parse refuses the first field of the scene

  /** Smallest and largest values of a .NET `int`. */
  const Int32Min: int := -0x8000_0000
  const Int32Max: int := 0x7FFF_FFFF

  function Min(a: int, b: int): int { if a < b then a else b }
}
