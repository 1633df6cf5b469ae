/** The domain record every layer shares (domain/model/Note.kt). */
module Notes {

  /** Kotlin's `Long`: a signed 64-bit integer. */
  type Long = x: int | -0x8000_0000_0000_0000 <= x < 0x8000_0000_0000_0000

  /**
   * A note. `id` is a client-generated UUID, `timestamp` the wall-clock time
   * of the last save in milliseconds, `isSynced` whether the latest local
   * state is known to be on the server.
   */
  datatype Note = Note(id: string, title: string, content: string, timestamp: Long, isSynced: bool)
}
