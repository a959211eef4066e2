/**
 * Value types shared by the instance registry: Go's `int32`, the
 * `*rpc.Instance` handle, the invalid-instance error and the result
 * shapes the registry's accessors return.
 */
module InstanceTypes {

  /** Go's `int32`: instance IDs and the ID counter have this width. */
  newtype int32 = x: int | -0x8000_0000 <= x < 0x8000_0000

  const MaxInt32: int32 := 0x7fff_ffff
  const MinInt32: int32 := -0x8000_0000

  /** `n++` on an `int32`: two's-complement wrap-around past `MaxInt32`. */
  function Inc(n: int32): (r: int32)
  {
    if n == MaxInt32 then MinInt32 else n + 1
  }

  /** An `*rpc.Instance`: a nil pointer, or a message carrying the instance ID. */
  datatype Handle = Nil | Instance(Id: int32)

  /** The generated `GetId()` accessor is nil-safe: a nil handle yields 0. */
  function GetId(inst: Handle): (id: int32)
  {
    match inst
    case Nil => 0
    case Instance(id) => id
  }

  /** `cmderrors.InvalidInstanceError`, the one error kind of the registry. */
  datatype Error = InvalidInstanceError

  datatype Option<T> = None | Some(value: T)

  /** A Go `(value, error)` pair in which exactly one side is meaningful. */
  datatype Result<T> = Ok(value: T) | Err(error: Error)

  /**
   * The `(accessor, release, error)` triple returned by the Explorer and
   * Installer wrappers; on failure the first two are nil.
   */
  datatype Scoped<A, R> = Scoped(accessor: Option<A>, release: Option<R>, err: Option<Error>)
}
