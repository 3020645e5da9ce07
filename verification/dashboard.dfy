/**
 * The dashboard page: the signed-in user's notes and the ones shared with them, with
 * handlers to add, edit, delete and share notes. Edits keep the text they replace in
 * the note's inline `history` array.
 */
module DashboardPage {
  import opened Wrappers
  import opened Text
  import opened Notes
  import opened Store
  import opened NoteList

  /** The document `handleAdd` writes for `text` typed by `u` at time `now`. */
  function NewNote(text: string, u: User, now: nat): Note {
    Note(u.uid, u.email, Some(text), None, None, {}, [], Some(now), Some(now))
  }

  /** A note's text, or "" when it has none. */
  function TextOf(n: Note): string {
    n.text.GetOr("")
  }

  /** Who a dashboard history entry names: the user's e-mail, or "unknown". */
  function EditorEmail(user: Option<User>): string {
    if user.Some? && user.value.email.Some? then user.value.email.value else "unknown"
  }

  /** The note after `saveEdit` wrote `text`: the replaced text goes to the end of the history. */
  function Edited(n: Note, text: string, editor: string, at: nat): Note {
    n.(text := Some(text), updatedAt := Some(at),
       history := n.history + [Entry(TextOf(n), editor, at)])
  }

  /** The note after `handleShare` added `email` with `arrayUnion`. */
  function Shared(n: Note, email: string): Note {
    n.(sharedWith := n.sharedWith + {email})
  }

  /** The check `handleShare` makes of the typed address: non-empty and containing "@". */
  predicate IsShareable(email: string) {
    email != [] && '@' in email
  }

  /** `s` back to front. */
  function Reverse<T>(s: seq<T>): (r: seq<T>)
    ensures |r| == |s|
    ensures forall i :: 0 <= i < |s| ==> r[i] == s[|s| - 1 - i]
  {
    if s == [] then [] else [s[|s| - 1]] + Reverse(s[..|s| - 1])
  }

  /** The history panel: the last five entries, newest first. */
  function RecentHistory(h: seq<Entry>): (r: seq<Entry>)
    ensures |r| == if |h| < 5 then |h| else 5
    ensures forall i :: 0 <= i < |r| ==> r[i] == h[|h| - 1 - i]
  {
    Reverse(h)[..if |h| < 5 then |h| else 5]
  }

  /** Sharing the same address again changes nothing; sharing leaves text, owner and history alone. */
  lemma ShareIdempotent(n: Note, email: string)
    ensures Shared(Shared(n, email), email) == Shared(n, email)
    ensures email in Shared(n, email).sharedWith
    ensures var m := Shared(n, email);
      m.text == n.text && m.owner == n.owner && m.history == n.history && m.updatedAt == n.updatedAt
  {
  }

  /** One edit as the dashboard performs it: the trimmed new text, who made it, and when. */
  datatype EditStep = EditStep(text: string, editor: string, at: nat)

  /** The note after the edits `es`, in order. */
  function EditAll(n: Note, es: seq<EditStep>): Note {
    if es == [] then n
    else
      var last := es[|es| - 1];
      Edited(EditAll(n, es[..|es| - 1]), last.text, last.editor, last.at)
  }

  /** The text a note had just before edit `i` of `es`. */
  function TextBefore(n: Note, es: seq<EditStep>, i: nat): string
    requires i < |es|
  {
    if i == 0 then TextOf(n) else es[i - 1].text
  }

  /**
   * After any run of edits the history has grown by one entry per edit, the old entries
   * untouched, and entry `i` of the new ones holds the text the note had right before
   * edit `i`; the note holds the last edit's text, with owner and sharing unchanged.
   */
  lemma {:induction false} EditsRecordPriorTexts(n: Note, es: seq<EditStep>)
    ensures var m := EditAll(n, es);
      && m.owner == n.owner && m.sharedWith == n.sharedWith
      && |m.history| == |n.history| + |es|
      && m.history[..|n.history|] == n.history
      && (forall i :: 0 <= i < |es| ==>
            m.history[|n.history| + i] == Entry(TextBefore(n, es, i), es[i].editor, es[i].at))
      && (es != [] ==> m.text == Some(es[|es| - 1].text))
  {
    if es != [] {
      var init := es[..|es| - 1];
      EditsRecordPriorTexts(n, init);
      var prior := EditAll(n, init);
      var m := EditAll(n, es);
      assert m.history == prior.history + [Entry(TextOf(prior), es[|es| - 1].editor, es[|es| - 1].at)];
      assert TextOf(prior) == TextBefore(n, es, |es| - 1);
      forall i | 0 <= i < |es| - 1
        ensures m.history[|n.history| + i] == Entry(TextBefore(n, es, i), es[i].editor, es[i].at)
      {
        assert m.history[|n.history| + i] == prior.history[|n.history| + i];
        assert TextBefore(n, init, i) == TextBefore(n, es, i);
      }
    }
  }

  /** After an edit the history panel opens with the text the edit replaced. */
  lemma HistoryShowsReplacedTextFirst(n: Note, text: string, editor: string, at: nat)
    ensures var r := RecentHistory(Edited(n, text, editor, at).history);
      r != [] && r[0] == Entry(TextOf(n), editor, at)
  {
  }

  /**
   * The page's state: the signed-in user, the input fields, the note being edited,
   * and the merged list of notes the listeners delivered.
   */
  class Dashboard {
    const db: NoteStore
    var user: Option<User>
    var newText: string
    var shareEmail: string
    var editingId: Option<NoteId>
    var editingText: string
    var notes: seq<Listed>

    ghost predicate Valid()
      reads this, db
    {
      db.Valid() && Distinct(notes)
    }

    constructor (db: NoteStore, user: Option<User>)
      requires db.Valid()
      ensures Valid()
      ensures this.db == db && this.user == user
      ensures newText == "" && shareEmail == "" && editingId == None && editingText == "" && notes == []
    {
      this.db := db;
      this.user := user;
      newText, shareEmail, editingId, editingText, notes := "", "", None, "", [];
    }

    /** `handleAdd`: a blank text or no user does nothing; otherwise one new note, owned by the user. */
    method HandleAdd(now: nat) returns (id: Option<NoteId>)
      requires Valid()
      modifies this`newText, db
      ensures Valid()
      ensures id.Some? <==> user.Some? && !IsBlank(old(newText))
      ensures id.None? ==> unchanged(db) && newText == old(newText)
      ensures id.Some? ==>
        && id.value !in old(db.docs) && id.value !in old(db.versions)
        && db.docs == old(db.docs)[id.value := NewNote(Trim(old(newText)), user.value, now)]
        && db.versions == old(db.versions)
        && newText == ""
    {
      var text := Trim(newText);
      TrimEmptyIffBlank(newText);
      if text == [] || user.None? {
        return None;
      }
      var newId := db.Add(NewNote(text, user.value, now));
      newText := "";
      id := Some(newId);
    }

    /** `beginEdit`: the note becomes the one being edited, its text in the edit box. */
    method BeginEdit(note: Listed)
      requires Valid()
      modifies this`editingId, this`editingText
      ensures Valid()
      ensures editingId == Some(note.id) && editingText == TextOf(note.note)
    {
      editingId := Some(note.id);
      editingText := TextOf(note.note);
    }

    /**
     * `saveEdit`: nothing without a note being edited or with a blank text; a missing
     * document makes the update fail; otherwise the note gets the trimmed text and the
     * text it had before goes to its history.
     */
    method SaveEdit(now: nat) returns (r: Outcome)
      requires Valid()
      modifies this`editingId, this`editingText, db
      ensures Valid()
      ensures r == if old(editingId).None? || IsBlank(old(editingText)) then Ignored
                   else if old(editingId).value !in old(db.docs) then NotFound
                   else Done
      ensures r != Done ==> unchanged(db) && editingId == old(editingId) && editingText == old(editingText)
      ensures r == Done ==>
        var id := old(editingId).value;
        && db.docs == old(db.docs)[id := Edited(old(db.docs)[id], Trim(old(editingText)), EditorEmail(user), now)]
        && db.versions == old(db.versions)
        && editingId == None && editingText == ""
    {
      var text := Trim(editingText);
      TrimEmptyIffBlank(editingText);
      if editingId.None? || text == [] {
        return Ignored;
      }
      var id := editingId.value;
      if id !in db.docs {
        return NotFound;
      }
      var edited := Edited(db.docs[id], text, EditorEmail(user), now);
      db.Put(id, edited);
      assert notes == old(notes);
      editingId := None;
      editingText := "";
      r := Done;
    }

    /** `handleDelete`: only the owner deletes; the note's document is removed. */
    method HandleDelete(note: Listed) returns (r: Outcome)
      requires Valid()
      modifies db
      ensures Valid()
      ensures r == if user.None? then Ignored
                   else if note.note.owner != user.value.uid then Forbidden
                   else Done
      ensures r == Done ==> db.docs == old(db.docs) - {note.id} && db.versions == old(db.versions)
      ensures r != Done ==> unchanged(db)
    {
      if user.None? {
        return Ignored;
      }
      if note.note.owner != user.value.uid {
        return Forbidden;
      }
      db.Remove(note.id);
      r := Done;
    }

    /**
     * `handleShare`: only the owner shares, and only to an address containing "@"; the
     * trimmed, lower-cased address joins the note's `sharedWith` set.
     */
    method HandleShare(note: Listed) returns (r: Outcome)
      requires Valid()
      modifies this`shareEmail, db
      ensures Valid()
      ensures r == if user.None? then Ignored
                   else if note.note.owner != user.value.uid then Forbidden
                   else if !IsShareable(old(shareEmail)) then InvalidEmail
                   else if note.id !in old(db.docs) then NotFound
                   else Done
      ensures r != Done ==> unchanged(db) && shareEmail == old(shareEmail)
      ensures r == Done ==>
        && db.docs == old(db.docs)[note.id := Shared(old(db.docs)[note.id], NormalizeEmail(old(shareEmail)))]
        && db.versions == old(db.versions)
        && shareEmail == ""
    {
      if user.None? {
        return Ignored;
      }
      if note.note.owner != user.value.uid {
        return Forbidden;
      }
      if !IsShareable(shareEmail) {
        return InvalidEmail;
      }
      if note.id !in db.docs {
        return NotFound;
      }
      var email := NormalizeEmail(shareEmail);
      db.Put(note.id, Shared(db.docs[note.id], email));
      shareEmail := "";
      r := Done;
    }

    /** A listener's snapshot arrives: the list becomes the merge of the old list and the snapshot. */
    method ApplySnapshot(docs: seq<Listed>)
      requires Valid()
      modifies this`notes
      ensures Valid()
      ensures notes == Merge(old(notes), docs)
    {
      notes := MergeSnapshot(notes, docs);
    }
  }
}
