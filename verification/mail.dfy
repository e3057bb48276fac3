/** The parts of a parsed mail that the attachment-saving step reads. */
module Mail {
  type Byte = bv8

  datatype Option<T> = None | Some(value: T)

  /** One attachment of a parsed mail: its filename, when the MIME part
      carries one, and its bytes. */
  datatype Attachment = Attachment(filename: Option<string>, content: seq<Byte>)

  /** A mail as the MIME parser hands it over: its attachments, in message order. */
  datatype ParsedMail = ParsedMail(attachments: seq<Attachment>)
}
