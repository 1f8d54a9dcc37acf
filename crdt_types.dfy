/** The plain data holders shared by the client and the server: a CRDT
    character and the message that carries it. */
module CrdtTypes {

  datatype Option<+T> = None | Some(value: T)

  /** A `CRDTCharacter`. `parentId` is `None` where the Java field is null.
      Inside a document the `visible` flag of the stored node is the
      authoritative one (the Java code flips it on the shared object). */
  datatype CharNode = CharNode(value: char, id: string, parentId: Option<string>, visible: bool)

  /** Id of the sentinel root every document starts with. */
  const Head: string := "HEAD"

  /** The value the sentinel and delete messages carry; never part of the text. */
  const NullChar: char := '\0'

  /** `new CRDTCharacter('\0', "HEAD", null, true)` */
  const HeadNode: CharNode := CharNode(NullChar, Head, None, true)

  /** A `CRDTMessage`: a type tag ("insert", "delete", "batch", "error"), the
      character it carries (null for batches and errors) and, for a batch,
      the operations it groups (empty otherwise). */
  datatype Message = Message(kind: string, character: Option<CharNode>, batch: seq<Message>)

  function SingleMessage(kind: string, c: Option<CharNode>): Message
  {
    Message(kind, c, [])
  }

  /** `CRDTMessage.createBatchMessage(ops)` */
  function BatchMessage(ops: seq<Message>): Message
  {
    Message("batch", None, ops)
  }
}
