/** Store results and the value codecs, which are parameters of the model. */
module Codecs {
  import opened Bytes

  datatype StoreError = KeyNotFound | AlreadyExists | DataInconsistency | DeserializationError

  datatype Result<+T> = Ok(value: T) | Err(error: StoreError)

  /** `decodeLegacy` decodes the old value type and converts it to the new one. */
  datatype Codec<!T> = Codec(encode: T -> Bytes, decode: Bytes -> Option<T>, decodeLegacy: Bytes -> Option<T>)

  ghost predicate RoundTrips<T(!new)>(c: Codec<T>) {
    forall x: T :: c.decode(c.encode(x)) == Some(x)
  }

  function Decoded<T>(r: Option<T>): Result<T> {
    match r
    case Some(x) => Ok(x)
    case None => Err(DeserializationError)
  }
}
