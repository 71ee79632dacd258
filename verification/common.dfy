/**
 Values shared by both schema versions: optional values, results carrying a
 conversion error, and the slice of Kubernetes object metadata that the
 conversion layer touches.
 */
module Common {

  /** A Go pointer field: `nil` is `None`. */
  datatype Option<+T> = None | Some(value: T)

  /** A Go `(value, error)` pair where a non-nil error discards the value. */
  datatype Result<+R> = Success(value: R) | Failure(error: ConversionError)

  /**
   The errors a conversion call can return. The orchestrator never creates
   one itself: it passes on whatever the field mapper or the snapshot codec
   reported, unchanged.
   */
  datatype ConversionError =
    | MappingError(message: string)
    | DecodeError(message: string)
    | EncodeError(message: string)

  /** Object metadata, reduced to what conversion reads or writes. */
  datatype ObjectMeta = ObjectMeta(
    name: string,
    namespace: string,
    annotations: map<string, string>
  )
}
