/** Small value types shared by every module of the model. */
module Common {

  /** A value that may be missing (a Swift optional). */
  datatype Option<+T> = None | Some(value: T) {
    function GetOr(default: T): T {
      match this
      case Some(v) => v
      case None => default
    }
  }

  /** Either success or a thrown `LDAP.Exception.message(text)`. */
  datatype Outcome = Ok | Fail(message: string)

  /** Either a value or a thrown `LDAP.Exception.message(text)`. */
  datatype Result<+T> = Success(value: T) | Failure(message: string)

  /** A C pointer: nil, or the address of a block owned by the C allocator. */
  datatype Ptr = Nil | Addr(address: nat)
}
