/**
 * The decoded records the state machine works on. How they are decoded from
 * bytes (YCSBMessage, CrudMessage, Ratis log entries) is not part of this
 * model: a decoded message is given, and None stands for a deserializer that
 * returned null.
 */
module Messages {
  import opened Wrappers

  /** Java's 64-bit `long`, the type of Ratis terms and log indices. */
  newtype Long = x: int | -0x8000_0000_0000_0000 <= x < 0x8000_0000_0000_0000

  /** A position in the replicated log. */
  datatype TermIndex = TermIndex(term: Long, index: Long)

  /**
   * The request types of a YCSBMessage; the query path tells READ from all the
   * others. NullYcsbType is a message whose type field is null.
   */
  datatype YcsbType = Read | OtherYcsbType | NullYcsbType

  datatype YcsbMessage = YcsbMessage(requestType: YcsbType, key: string, value: string)

  /**
   * The request types of a CrudMessage; the apply path tells CREATE and UPDATE
   * from the rest. NullCrudType is a message whose type field is null.
   */
  datatype CrudType = Create | Update | OtherCrudType | NullCrudType

  datatype CrudMessage = CrudMessage(requestType: CrudType, key: string, value: string)

  /**
   * A committed log entry. It carries two decoded views: `entryMessage` is the
   * YCSBMessage decoded from the bytes of the whole entry, `logDataMessage` the
   * CrudMessage decoded from the entry's state-machine log data.
   */
  datatype LogEntry = LogEntry(term: Long, index: Long,
                               entryMessage: Option<YcsbMessage>,
                               logDataMessage: Option<CrudMessage>)

  /** A serialized YCSBMessage reply: an error message, or a read response with status OK. */
  datatype YcsbReply = ErrorReply(message: string) | ReadReply(value: string)

  /**
   * What a call hands back: a plain text message, a serialized YCSBMessage,
   * or a NullPointerException thrown by `Objects.requireNonNull` or by a
   * method call on a null message.
   */
  datatype Reply = Text(text: string) | Serialized(reply: YcsbReply) | NullPointer

  /**
   * The latest snapshot's metadata: whether its file exists on disk, and the
   * (term, index) that Ratis parses out of that file's name.
   */
  datatype SnapshotInfo = SnapshotInfo(fileExists: bool, fileTermIndex: TermIndex)
}
