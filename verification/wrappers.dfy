/** Failure-carrying values shared by every module of the model.
    The source signals failures with .NET exceptions; here each operation that can throw
    returns a `Result` whose `Err` names the exception kind. */
module Wrappers {

  datatype Option<+T> = None | Some(value: T) {
    function GetOr(default: T): T {
      match this
      case Some(v) => v
      case None => default
    }
  }

  /** The exception kinds the modelled code raises. */
  datatype Error =
    | ObjectDisposed      // System.ObjectDisposedException
    | CryptoParameter     // Hosta.Exceptions.CryptoParameterException
    | Format              // System.FormatException
    | InvalidPackage      // Hosta.Exceptions.InvalidPackageException
    | TamperedPackage     // Hosta.Exceptions.TamperedPackageException
    | DuplicatePackage    // Hosta.Exceptions.DuplicatePackageException
    | MessageTooLarge     // Hosta.Exceptions.MessageTooLargeException
    | StreamDisconnected  // Hosta.Exceptions.StreamDisconnectedException
    | SemaphoreFull       // System.Threading.SemaphoreFullException
    | Cryptographic       // System.Security.Cryptography.CryptographicException (bad padding, bad tag, bad key blob)
    | Argument            // ArgumentException / OverflowException raised by array copies and allocations
    | NullReference       // System.NullReferenceException / ArgumentNullException on an unset field
    | AddressInUse        // ArgumentException from Dictionary.Add on an address already bound
    | AddressNotBound     // the plain Exception thrown for an unknown address

  datatype Result<+T> = Ok(value: T) | Err(error: Error) {
    predicate IsFailure() {
      Err?
    }

    function PropagateFailure<U>(): Result<U>
      requires Err?
    {
      Err(error)
    }

    function Extract(): T
      requires Ok?
    {
      value
    }
  }
}
