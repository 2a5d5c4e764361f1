/** The records that flow into and out of the ChatGPT-export to T3Chat reducer:
    the parsed export (conversations of edit-branching node trees) and the
    flat thread and message records it produces. */
module ExportTypes {

  datatype Option<T> = None | Some(value: T)

  /** One entry of a content `parts` array: a bare string, or an object part.
      `json` is the host serialiser's rendering of the whole object part
      (what `JSON.stringify(part)` yields); `text` is its `text` field. */
  datatype Part =
    | TextPart(s: string)
    | ObjectPart(contentType: Option<string>, text: string, json: string)

  /** The three content shapes of a raw message. `NoContent` stands for an
      absent or null `content`. An object's `text` and `parts` are optional. */
  datatype Content =
    | NoContent
    | StrContent(s: string)
    | ObjContent(contentType: Option<string>, text: Option<string>, parts: Option<seq<Part>>)

  /** A raw export message. Timestamps are whole unix seconds; `None` is `null`. */
  datatype Message = Message(
    id: string,
    role: string,
    content: Content,
    status: Option<string>,
    createTime: Option<int>,
    modelSlug: Option<string>,
    defaultModelSlug: Option<string>,
    recipient: Option<string>)

  /** A node of a conversation's edit tree; `children` keeps the export's order. */
  datatype Node = Node(parent: Option<string>, children: seq<string>, message: Option<Message>)

  /** The `mapping` of a conversation: node id to node. */
  type Mapping = map<string, Node>

  /** A parsed conversation. `order` is the sequence in which `for...in`
      enumerates the keys of `mapping`. */
  datatype Conversation = Conversation(
    conversationId: string,
    title: string,
    createTime: int,
    updateTime: int,
    mapping: Mapping,
    order: seq<string>)

  /** An output thread; `lastMessageAt` is `None` until a message is kept. */
  datatype Thread = Thread(
    title: string,
    id: string,
    createdAt: int,
    updatedAt: int,
    lastMessageAt: Option<int>)

  /** An output message record. */
  datatype OutMessage = OutMessage(
    threadId: string,
    role: string,
    content: string,
    status: string,
    model: Option<string>,
    id: string,
    createdAt: int)

  /** `create_time || 0`: a null timestamp reads as the epoch. */
  function TimeOrZero(t: Option<int>): int {
    if t.Some? then t.value else 0
  }
}
