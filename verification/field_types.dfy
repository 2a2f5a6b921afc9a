/** Stand-ins for the value types of collaborators that are not part of
    this model (date-time, mailbox, encoding, parameters, the common
    header-field state). Only their identity matters here: every parser
    and generator for them is passed in as a function parameter. */
module FieldTypes {

  /** The result of a `parse(buffer, position, end, &newPosition)` call. */
  datatype Parsed<T> = Parsed(value: T, newPosition: nat)

  /** A generated text together with the column the output ends at. */
  datatype Generated = Generated(text: string, column: nat)

  datatype DateTime = DateTime(year: int, month: int, day: int,
                               hour: int, minute: int, second: int, zone: int)

  datatype Mailbox = Mailbox(name: string, email: string)

  datatype MailboxList = MailboxList(mailboxes: seq<Mailbox>)

  /** A content-transfer-encoding, identified by its name. */
  datatype Encoding = Encoding(name: string)

  datatype Parameter = Parameter(name: string, value: string)

  /** The state every header field inherits from `headerField`. */
  datatype FieldBase = FieldBase(name: string)

  /** The `encodeAndFoldFlags` a generator passes to the text folder;
      only `forceNoEncoding` is used by the modelled fields. */
  datatype FoldFlags = FoldFlags(forceNoEncoding: bool)

  /** A text folder (`encodeAndFoldText`): value, maximum line length,
      starting column and flags. */
  type Folder = (string, nat, nat, FoldFlags) -> Generated

  const CRLF: string := "\r\n"
}
