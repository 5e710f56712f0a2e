/** Results that may be missing or errors. */
module Results {

  datatype Option<+T> = None | Some(value: T)

  /** The error codes of the encoder that the model can produce. */
  datatype Error =
    | SmallBuffer
    | DataValueTooLarge
    | IntDecoder
    | ParGeneric
    | ParSpecific
    | ParNoModel
    | ChunkTooLarge
    | ChunkSizeInconsistent
    | ChunkSubserviceInconsistent
    | ColSubserviceUnsupported
    | ColSizeInconsistent
    | EntityHeader
    | EntityTimestamp
    | IntCmpColTooLarge

  datatype Result<+T> = Ok(value: T) | Err(error: Error)
}
