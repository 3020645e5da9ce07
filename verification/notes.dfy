/**
 * The note document shared by the dashboard page and the notes service: both read and
 * write the same `notes` collection, each with its own subset of the fields.
 */
module Notes {
  import opened Wrappers

  /** Document ids. The store hands out fresh ones; the model numbers them. */
  type NoteId = nat

  /** A signed-in user: the identity provider's uid and, when known, the e-mail address. */
  datatype User = User(uid: string, email: Option<string>)

  /** A dashboard history entry, kept inline in the note: the text before an edit. */
  datatype Entry = Entry(text: string, editedBy: string, editedAt: nat)

  /**
   * A notes-service history record, kept in the note's `history` subcollection. A
   * field is present only when the update that wrote the record was given a string for it.
   */
  datatype Version = Version(title: Option<string>, content: Option<string>, editedAt: nat, editedBy: string)

  /**
   * A stored note. `text` is the dashboard's body field, `title` and `content` the
   * service's; a field the writer never set is `None`. Timestamps are seconds and are
   * `None` while the server has not assigned them.
   */
  datatype Note = Note(
    owner: string,
    ownerEmail: Option<string>,
    text: Option<string>,
    title: Option<string>,
    content: Option<string>,
    sharedWith: set<string>,
    history: seq<Entry>,
    createdAt: Option<nat>,
    updatedAt: Option<nat>)

  /** A note as a client receives it from a query: the document id and its data. */
  datatype Listed = Listed(id: NoteId, note: Note)

  /**
   * How a handler or a service call ended: it wrote to the store, returned early, was
   * refused to a non-owner, alerted on a malformed address, or its write was rejected
   * because the document does not exist.
   */
  datatype Outcome = Done | Ignored | Forbidden | InvalidEmail | NotFound

  /** The ids the query `where("owner", "==", uid)` selects. */
  function OwnedIds(docs: map<NoteId, Note>, uid: string): (ids: set<NoteId>)
    ensures forall id :: id in ids <==> id in docs && docs[id].owner == uid
  {
    set id | id in docs && docs[id].owner == uid
  }

  /**
   * The ids the query `where("sharedWith", "array-contains", email)` selects; a user
   * without an e-mail address matches no stored address.
   */
  function SharedIds(docs: map<NoteId, Note>, email: Option<string>): (ids: set<NoteId>)
    ensures forall id :: id in ids <==> id in docs && email.Some? && email.value in docs[id].sharedWith
  {
    set id | id in docs && email.Some? && email.value in docs[id].sharedWith
  }
}
