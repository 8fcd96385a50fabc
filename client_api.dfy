/** The declarations of the client's public surface that the behaviour depends on. */
module ClientApi {
  import opened Common

  /** The gRPC service name that load-balanced connections health-check against. */
  const ServiceName: string := "recordbase.RecordService"

  /**
   * One value on a streaming call's event channel (`RecordEntryEvent`,
   * `MapEntryEvent`, `FileContentEvent`): either a received item or the
   * error that ended the stream. A graceful end of the stream is not an
   * event: the channel is closed instead.
   */
  datatype StreamEvent<+T> = EntryEvent(entry: T) | ErrorEvent(err: Error)
}
