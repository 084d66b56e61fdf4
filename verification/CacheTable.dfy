/** The table of cached headers. */
module CacheTable {

  /** The columns of a mail_nodes row that hold header data; address lists are joined by newlines. */
  datatype Row = Row(from: string, to: string, cc: string, bcc: string, subject: string, rest: string)

  datatype Node = Node(mailbox: string, uid: nat, row: Row)
}
