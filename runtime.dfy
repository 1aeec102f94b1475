/** Stand-ins for the pieces of the .NET runtime that both tools lean on:
    bytes, nullable references, the exceptions the code throws or catches,
    and the "returns a value or throws" outcome of a call. */
module Runtime {

  /** `System.Byte`. */
  newtype byte = x: int | 0 <= x < 256

  /** A reference that may be null. */
  datatype Option<+T> = None | Some(value: T)

  /** The exception types that the helpers throw, catch or let escape.
      Exceptions raised inside library code the model cannot see (RSA key
      import, signing, verification) are represented by whatever value the
      oracle in module Crypto yields; `CryptographicException` is there
      only for such oracle values, the repository's code never builds one. */
  datatype Exception =
    | ArgumentException(message: string)
    | FormatException(message: string)
    | CryptographicException(message: string)
    | InvalidOperationException(message: string, inner: Exception)

  /** A call either returns a value or throws. */
  datatype Result<+T> = Ok(value: T) | Err(error: Exception)

  /** `catch (Exception ex) { throw new InvalidOperationException(prefix + ex.Message, ex); }` */
  function Rethrow(prefix: string, ex: Exception): Exception
  {
    InvalidOperationException(prefix + ex.message, ex)
  }

  /** What a command-line parser does with its arguments: it returns an
      options object, throws, or prints usage and ends the process
      (`ShowUsage(); Environment.Exit(0);`). */
  datatype ParseOutcome<+T> = Parsed(options: T) | Rejected(error: Exception) | HelpShown

  /** `string.IsNullOrEmpty(s)` negated. */
  predicate Present(s: Option<string>)
  {
    s.Some? && |s.value| > 0
  }
}
