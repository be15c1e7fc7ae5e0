/**
  The documents and identities the chat roster screen works on: chat
  documents as the remote store delivers them, their participant entries and
  messages, the change events of a live query, and the signed-in identity.
 */
module Model {

  datatype Option<+T> = None | Some(value: T)

  /** JavaScript truthiness of an optional string: present and not empty. */
  predicate Truthy(o: Option<string>) {
    o.Some? && o.value != ""
  }

  /** The signed-in user; either part may be missing. */
  datatype Identity = Identity(email: Option<string>, displayName: Option<string>)

  /** One entry of a chat document's `users` list. */
  datatype User = User(email: string, name: string, deletedFromChat: bool)

  /** The `user` object of a message: `_id` holds the author's email. */
  datatype Author = Author(id: string, name: string)

  /** A message; `image` is absent for plain text messages. */
  datatype Message = Message(author: Author, text: string, image: Option<string>)

  /** The data of a chat document; `messages` is newest first. */
  datatype ChatDoc = ChatDoc(users: seq<User>, groupName: Option<string>, messages: seq<Message>)

  /** A chat document together with its id. */
  datatype Chat = Chat(id: string, data: ChatDoc)

  datatype ChangeKind = Added | Modified | Removed

  /** One entry of a snapshot's `docChanges()`. */
  datatype Change = Change(kind: ChangeKind, doc: Chat)

  /**
    Whether an author id is the signed-in user's email. A missing email
    matches no author, as `undefined` equals no string.
   */
  predicate IsOwn(authorId: string, me: Identity) {
    me.email == Some(authorId)
  }

  /** A "modified" change can only be handled when its chat has a newest message. */
  predicate Handleable(c: Change) {
    c.kind == Modified ==> |c.doc.data.messages| > 0
  }

  /** Whether a change makes the unread counter of its chat grow. */
  predicate IsForeignMessage(c: Change, me: Identity)
    requires Handleable(c)
  {
    c.kind == Modified && !IsOwn(c.doc.data.messages[0].author.id, me)
  }
}
