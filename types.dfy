/** Value types shared by every module of the model. */
module Types {

  /** An octet, as held by a `Uint8Array` element. */
  type Byte = b: int | 0 <= b < 256

  /** An unsigned 32-bit integer, as returned by `DataView.getUint32`. */
  type Uint32 = x: int | 0 <= x < 0x1_0000_0000

  datatype Option<+T> = None | Some(value: T)

  /** A JavaScript string value is truthy when it is present and not the empty string. */
  predicate Truthy(v: Option<string>)
  {
    v.Some? && v.value != ""
  }

  /** The outcome of an operation that may throw: `Failure` carries what was thrown. */
  datatype Result<+T, +E> = Success(value: T) | Failure(error: E)
}
