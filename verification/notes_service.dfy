/**
 * The notes service: add a note, list a user's notes, update a note's title and content
 * while logging a version record to the note's `history` subcollection, list that
 * history newest first, and restore a version.
 */
module NotesService {
  import opened Wrappers
  import opened Notes
  import opened Store
  import opened Ordering

  /**
   * The `{ title, content }` argument of an update: `Some` where the caller passed a
   * string, `None` for anything else (undefined, null, a number, ...).
   */
  datatype Fields = Fields(title: Option<string>, content: Option<string>)

  /** Who a version record names: the user's uid, or "unknown" when there is no user or the uid is empty. */
  function Editor(user: Option<User>): string {
    if user.Some? && user.value.uid != "" then user.value.uid else "unknown"
  }

  /** The note after the patch: the given string fields replaced, `updatedAt` refreshed, nothing else touched. */
  function Patched(n: Note, f: Fields, now: nat): Note {
    n.(title := if f.title.Some? then f.title else n.title,
       content := if f.content.Some? then f.content else n.content,
       updatedAt := Some(now))
  }

  /** The version record an update writes: the values it was given, not the ones it replaced. */
  function Record(f: Fields, now: nat, user: Option<User>): Version {
    Version(f.title, f.content, now, Editor(user))
  }

  /** `addNote`: the given fields plus both timestamps; a failed write is swallowed and stores nothing. */
  method AddNote(db: NoteStore, note: Note, now: nat, stored: bool)
    requires db.Valid()
    modifies db
    ensures db.Valid()
    ensures db.versions == old(db.versions)
    ensures !stored ==> db.docs == old(db.docs)
    ensures stored ==> exists id: NoteId ::
      (id !in old(db.docs) && id !in old(db.versions) && db.docs == old(db.docs)[id := note.(createdAt := Some(now), updatedAt := Some(now))])
  {
    if stored {
      var id := db.Add(note.(createdAt := Some(now), updatedAt := Some(now)));
    }
  }

  /** `getMyNotes`: the documents the query on `owner` returns, as stored. */
  function GetMyNotes(docs: map<NoteId, Note>, userId: string): (r: map<NoteId, Note>)
    ensures r.Keys == OwnedIds(docs, userId)
    ensures forall id :: id in r ==> r[id] == docs[id] && r[id].owner == userId
  {
    map id | id in OwnedIds(docs, userId) :: docs[id]
  }

  /** A note added under a fresh id shows up in its owner's list and in no one else's. */
  lemma AddedNoteInOwnersList(docs: map<NoteId, Note>, id: NoteId, n: Note, userId: string)
    requires id !in docs
    ensures GetMyNotes(docs[id := n], userId) ==
      if n.owner == userId then GetMyNotes(docs, userId)[id := n] else GetMyNotes(docs, userId)
  {
    var after := GetMyNotes(docs[id := n], userId);
    var before := GetMyNotes(docs, userId);
    if n.owner == userId {
      assert after.Keys == before.Keys + {id};
    } else {
      assert after.Keys == before.Keys;
    }
  }

  /**
   * `updateNote`: the note gets exactly the string-typed fields and a new `updatedAt`,
   * then one version record is appended to its history, whatever the fields were. An
   * update of a missing document is rejected before any history is written.
   */
  method UpdateNote(db: NoteStore, noteId: NoteId, f: Fields, user: Option<User>, now: nat) returns (r: Outcome)
    requires db.Valid()
    modifies db
    ensures db.Valid()
    ensures r == if noteId in old(db.docs) then Done else NotFound
    ensures r == NotFound ==> unchanged(db)
    ensures r == Done ==>
      && db.docs == old(db.docs)[noteId := Patched(old(db.docs)[noteId], f, now)]
      && db.versions == old(db.versions)[noteId := old(db.VersionsOf(noteId)) + [Record(f, now, user)]]
  {
    if noteId !in db.docs {
      return NotFound;
    }
    var patched := db.docs[noteId].(updatedAt := Some(now));
    if f.title.Some? {
      patched := patched.(title := f.title);
    }
    if f.content.Some? {
      patched := patched.(content := f.content);
    }
    db.Put(noteId, patched);
    db.AddVersion(noteId, Record(f, now, user));
    r := Done;
  }

  /** The fields of a version as `restoreVersion` passes them on; none for a missing version. */
  function VersionFields(v: Option<Version>): Fields {
    if v.Some? then Fields(v.value.title, v.value.content) else Fields(None, None)
  }

  /** `restoreVersion`: exactly an update with the version's title and content. */
  method RestoreVersion(db: NoteStore, noteId: NoteId, version: Option<Version>, user: Option<User>, now: nat)
    returns (r: Outcome)
    requires db.Valid()
    modifies db
    ensures db.Valid()
    ensures r == if noteId in old(db.docs) then Done else NotFound
    ensures r == NotFound ==> unchanged(db)
    ensures r == Done ==>
      && db.docs == old(db.docs)[noteId := Patched(old(db.docs)[noteId], VersionFields(version), now)]
      && db.versions == old(db.versions)[noteId := old(db.VersionsOf(noteId)) + [Record(VersionFields(version), now, user)]]
  {
    r := UpdateNote(db, noteId, VersionFields(version), user, now);
  }

  /** After a restore the note carries each field the version recorded and keeps the others. */
  lemma RestoreBringsBackRecordedFields(n: Note, v: Version, now: nat)
    ensures var m := Patched(n, VersionFields(Some(v)), now);
      && (m.title == if v.title.Some? then v.title else n.title)
      && (m.content == if v.content.Some? then v.content else n.content)
      && m.owner == n.owner && m.text == n.text && m.sharedWith == n.sharedWith && m.history == n.history
  {
  }

  /** `listenHistory`: the note's version records, latest `editedAt` first. */
  function ListenHistory(versions: map<NoteId, seq<Version>>, noteId: NoteId): (r: seq<Version>)
    ensures multiset(r) == multiset(if noteId in versions then versions[noteId] else [])
    ensures forall i, j :: 0 <= i < j < |r| ==> r[i].editedAt >= r[j].editedAt
  {
    SortDesc(if noteId in versions then versions[noteId] else [], (v: Version) => v.editedAt)
  }

  /** One call of `updateNote` on a note that exists. */
  datatype Update = Update(fields: Fields, user: Option<User>, at: nat)

  /** The note after the updates `us`, in order. */
  function UpdateAll(n: Note, us: seq<Update>): Note {
    if us == [] then n
    else Patched(UpdateAll(n, us[..|us| - 1]), us[|us| - 1].fields, us[|us| - 1].at)
  }

  /** The version records the updates `us` append, in order. */
  function Log(us: seq<Update>): (vs: seq<Version>)
    ensures |vs| == |us|
  {
    if us == [] then []
    else Log(us[..|us| - 1]) + [Record(us[|us| - 1].fields, us[|us| - 1].at, us[|us| - 1].user)]
  }

  /** The title of the newest record that has one, or `fallback` when none has. */
  function LatestTitle(vs: seq<Version>, fallback: Option<string>): Option<string> {
    if vs == [] then fallback
    else if vs[|vs| - 1].title.Some? then vs[|vs| - 1].title
    else LatestTitle(vs[..|vs| - 1], fallback)
  }

  /** The content of the newest record that has one, or `fallback` when none has. */
  function LatestContent(vs: seq<Version>, fallback: Option<string>): Option<string> {
    if vs == [] then fallback
    else if vs[|vs| - 1].content.Some? then vs[|vs| - 1].content
    else LatestContent(vs[..|vs| - 1], fallback)
  }

  /**
   * Because each record holds the values written rather than the ones replaced, the
   * history always ends in the current state: after any run of updates, the note's
   * title and content are those of the newest record that has them, or the original
   * ones when no record has; owner, text, sharing and inline history never change.
   */
  lemma {:induction false} CurrentFieldsAreLatestRecorded(n: Note, us: seq<Update>)
    ensures var m := UpdateAll(n, us);
      && m.title == LatestTitle(Log(us), n.title)
      && m.content == LatestContent(Log(us), n.content)
      && m.owner == n.owner && m.text == n.text && m.sharedWith == n.sharedWith && m.history == n.history
  {
    if us != [] {
      var init := us[..|us| - 1];
      CurrentFieldsAreLatestRecorded(n, init);
      assert Log(us)[..|us| - 1] == Log(init);
    }
  }
}
