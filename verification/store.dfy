/**
 * The `notes` collection of the document store, held in memory: note documents by id
 * and, per note, the `history` subcollection the notes service writes to.
 */
module Store {
  import opened Notes

  class NoteStore {
    var docs: map<NoteId, Note>
    var versions: map<NoteId, seq<Version>>
    /** Every id at or above this one is unused, so it can be handed out as a fresh id. */
    var nextId: NoteId

    ghost predicate Valid()
      reads this
    {
      && (forall id :: id in docs ==> id < nextId)
      && (forall id :: id in versions ==> id < nextId)
    }

    constructor ()
      ensures Valid()
      ensures docs == map[] && versions == map[]
    {
      docs, versions, nextId := map[], map[], 0;
    }

    /** The records of the note's `history` subcollection, oldest first; none if it has none. */
    function VersionsOf(id: NoteId): seq<Version>
      reads this
    {
      if id in versions then versions[id] else []
    }

    /** `addDoc`: stores `n` under an id no document or subcollection uses yet. */
    method Add(n: Note) returns (id: NoteId)
      requires Valid()
      modifies this
      ensures Valid()
      ensures id !in old(docs) && id !in old(versions)
      ensures docs == old(docs)[id := n] && versions == old(versions)
    {
      id := nextId;
      docs := docs[id := n];
      nextId := nextId + 1;
    }

    /** `updateDoc` on an existing document: its new contents. */
    method Put(id: NoteId, n: Note)
      requires Valid() && id in docs
      modifies this`docs
      ensures Valid()
      ensures docs == old(docs)[id := n]
    {
      docs := docs[id := n];
    }

    /** `deleteDoc`: the document goes, its `history` subcollection stays. */
    method Remove(id: NoteId)
      requires Valid()
      modifies this`docs
      ensures Valid()
      ensures docs == old(docs) - {id}
    {
      docs := docs - {id};
    }

    /** `addDoc` into the note's `history` subcollection. */
    method AddVersion(id: NoteId, v: Version)
      requires Valid() && id in docs
      modifies this`versions
      ensures Valid()
      ensures versions == old(versions)[id := old(VersionsOf(id)) + [v]]
    {
      versions := versions[id := VersionsOf(id) + [v]];
    }
  }
}
