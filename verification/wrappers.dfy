/** Failure-carrying values shared by the HUD model. */
module Wrappers {

  /** A value that may be absent (a C# `null` reference or an empty `Nullable`). */
  datatype Option<+T> = None | Some(value: T)

  /** The .NET exceptions the modelled members can raise. */
  datatype Exception =
    | NotImplemented      // System.NotImplementedException
    | InvalidOperation    // System.InvalidOperationException
    | NullReference       // dereferencing a missing dictionary entry
    | InvalidCast         // casting a control to the wrong subclass
    | ArgumentNull        // System.ArgumentNullException: a null string handed to a regular expression

  /** Either a value or the exception that was thrown instead. */
  datatype Result<+T> = Ok(value: T) | Throws(error: Exception)
}
