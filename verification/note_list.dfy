/**
 * The dashboard's client-side note list: every snapshot a listener delivers is merged
 * into the previous list through a JavaScript `Map` keyed by note id, and the list is
 * shown sorted newest first.
 */
module NoteList {
  import opened Wrappers
  import opened Notes
  import opened Ordering

  /** The ids that occur in a list. */
  function Ids(s: seq<Listed>): set<NoteId> {
    set l | l in s :: l.id
  }

  /** No id occurs twice. */
  ghost predicate Distinct(s: seq<Listed>) {
    forall i, j :: 0 <= i < j < |s| ==> s[i].id != s[j].id
  }

  /** `Map.get`: the note of the first entry with that id. */
  function Lookup(s: seq<Listed>, id: NoteId): (r: Option<Note>)
    ensures r.Some? <==> id in Ids(s)
  {
    if s == [] then None
    else if s[0].id == id then Some(s[0].note)
    else
      assert Ids(s) == {s[0].id} + Ids(s[1..]) by { assert s == [s[0]] + s[1..]; }
      Lookup(s[1..], id)
  }

  /** The note of the last entry with that id: the one a run of `Map.set` calls keeps. */
  function LastFor(s: seq<Listed>, id: NoteId): (r: Option<Note>)
    ensures r.Some? <==> id in Ids(s)
    ensures r.Some? ==> Listed(id, r.value) in s
  {
    if s == [] then None
    else if s[|s| - 1].id == id then Some(s[|s| - 1].note)
    else
      assert Ids(s) == Ids(s[..|s| - 1]) + {s[|s| - 1].id} by { assert s == s[..|s| - 1] + [s[|s| - 1]]; }
      LastFor(s[..|s| - 1], id)
  }

  /**
   * `Map.set` on an insertion-ordered map held as a list: an entry with the same id is
   * replaced where it stands, otherwise the entry goes at the end.
   */
  function MapSet(m: seq<Listed>, x: Listed): (r: seq<Listed>)
    ensures Ids(r) == Ids(m) + {x.id}
    ensures Distinct(m) ==> Distinct(r)
    ensures forall id :: Lookup(r, id) == if id == x.id then Some(x.note) else Lookup(m, id)
  {
    if m == [] then [x]
    else if m[0].id == x.id then
      assert m == [m[0]] + m[1..];
      ConsFacts(m[0], m[1..]);
      ConsFacts(x, m[1..]);
      [x] + m[1..]
    else
      var rest := MapSet(m[1..], x);
      assert m == [m[0]] + m[1..];
      ConsFacts(m[0], m[1..]);
      ConsFacts(m[0], rest);
      [m[0]] + rest
  }

  /** Ids, distinctness and lookup of a list with one entry in front. */
  lemma ConsFacts(h: Listed, t: seq<Listed>)
    ensures Ids([h] + t) == {h.id} + Ids(t)
    ensures Distinct([h] + t) <==> h.id !in Ids(t) && Distinct(t)
    ensures forall id :: Lookup([h] + t, id) == if h.id == id then Some(h.note) else Lookup(t, id)
  {
    var s := [h] + t;
    assert s[1..] == t;
    if Distinct(s) {
      forall i, j | 0 <= i < j < |t| ensures t[i].id != t[j].id {
        assert s[i + 1] == t[i] && s[j + 1] == t[j];
      }
    }
    if h.id !in Ids(t) && Distinct(t) {
      forall i, j | 0 <= i < j < |s| ensures s[i].id != s[j].id {
        assert s[j] == t[j - 1];
        if i > 0 { assert s[i] == t[i - 1]; }
      }
    }
  }

  /** `Map.set` for each entry of `xs` in turn. */
  function SetAll(m: seq<Listed>, xs: seq<Listed>): (r: seq<Listed>)
    ensures Ids(r) == Ids(m) + Ids(xs)
    ensures Distinct(m) ==> Distinct(r)
    ensures forall id :: Lookup(r, id) == if id in Ids(xs) then LastFor(xs, id) else Lookup(m, id)
  {
    if xs == [] then m
    else
      assert xs == xs[..|xs| - 1] + [xs[|xs| - 1]];
      assert Ids(xs) == Ids(xs[..|xs| - 1]) + {xs[|xs| - 1].id};
      MapSet(SetAll(m, xs[..|xs| - 1]), xs[|xs| - 1])
  }

  /**
   * What a snapshot listener makes of the previous list: a `Map` built from the previous
   * entries, then every snapshot document set into it. Each id occurs once; a document
   * of the snapshot replaces the entry with its id, and an entry the snapshot does not
   * mention is kept.
   */
  function Merge(prev: seq<Listed>, docs: seq<Listed>): (r: seq<Listed>)
    ensures Distinct(r)
    ensures Ids(r) == Ids(prev) + Ids(docs)
    ensures forall id :: Lookup(r, id) == if id in Ids(docs) then LastFor(docs, id) else LastFor(prev, id)
  {
    SetAll(SetAll([], prev), docs)
  }

  /** The listener callback: the `Map` filled by two loops, then read back in insertion order. */
  method MergeSnapshot(prev: seq<Listed>, docs: seq<Listed>) returns (merged: seq<Listed>)
    ensures merged == Merge(prev, docs)
  {
    var byId: seq<Listed> := [];
    var i := 0;
    while i < |prev|
      invariant 0 <= i <= |prev|
      invariant byId == SetAll([], prev[..i])
    {
      SetAllSnoc([], prev, i);
      byId := MapSet(byId, prev[i]);
      i := i + 1;
    }
    assert prev[..i] == prev;
    ghost var start := byId;
    var j := 0;
    while j < |docs|
      invariant 0 <= j <= |docs|
      invariant byId == SetAll(start, docs[..j])
    {
      SetAllSnoc(start, docs, j);
      byId := MapSet(byId, docs[j]);
      j := j + 1;
    }
    assert docs[..j] == docs;
    merged := byId;
  }

  /** One more `Map.set` extends the fold by one entry. */
  lemma SetAllSnoc(m: seq<Listed>, xs: seq<Listed>, i: nat)
    requires i < |xs|
    ensures SetAll(m, xs[..i + 1]) == MapSet(SetAll(m, xs[..i]), xs[i])
  {
    assert xs[..i + 1][..i] == xs[..i];
  }

  /** A list entry the snapshot does not mention stays, with the note it had: merging never removes. */
  lemma MergeKeepsUnmentioned(prev: seq<Listed>, docs: seq<Listed>, id: NoteId)
    requires id in Ids(prev) && id !in Ids(docs)
    ensures id in Ids(Merge(prev, docs))
    ensures Lookup(Merge(prev, docs), id) == LastFor(prev, id)
  {
  }

  /** A query snapshot of `docs`: each selected document once, as stored. */
  ghost predicate IsSnapshot(s: seq<Listed>, docs: map<NoteId, Note>, selected: set<NoteId>) {
    && Distinct(s)
    && Ids(s) == selected
    && forall l :: l in s ==> l.id in docs && l.note == docs[l.id]
  }

  /**
   * Both listeners of the dashboard, the owned-notes query and then the shared-with-me
   * query, merged into a list: every note the user owns or that is shared with the user
   * is in it once, as stored, and nothing else is added to what the list already held.
   */
  lemma ListenersListVisibleNotes(
    docs: map<NoteId, Note>, u: User, prev: seq<Listed>, owned: seq<Listed>, shared: seq<Listed>)
    requires IsSnapshot(owned, docs, OwnedIds(docs, u.uid))
    requires IsSnapshot(shared, docs, SharedIds(docs, u.email))
    ensures var l := Merge(Merge(prev, owned), shared);
      && Distinct(l)
      && Ids(l) == Ids(prev) + OwnedIds(docs, u.uid) + SharedIds(docs, u.email)
      && forall id :: id in OwnedIds(docs, u.uid) + SharedIds(docs, u.email) ==> Lookup(l, id) == Some(docs[id])
  {
    var m := Merge(prev, owned);
    var l := Merge(m, shared);
    forall id | id in OwnedIds(docs, u.uid) + SharedIds(docs, u.email)
      ensures Lookup(l, id) == Some(docs[id])
    {
      if id in Ids(shared) {
        SnapshotEntry(shared, docs, SharedIds(docs, u.email), id);
      } else {
        SnapshotEntry(owned, docs, OwnedIds(docs, u.uid), id);
        assert Lookup(m, id) == Some(docs[id]);
        assert LastFor(m, id) == Some(docs[id]) by { LookupIsLastForDistinct(m, id); }
      }
    }
  }

  /** In a snapshot, the entry for a selected id is the stored note. */
  lemma SnapshotEntry(s: seq<Listed>, docs: map<NoteId, Note>, selected: set<NoteId>, id: NoteId)
    requires IsSnapshot(s, docs, selected) && id in selected
    ensures id in docs && LastFor(s, id) == Some(docs[id])
  {
    assert Listed(id, LastFor(s, id).value) in s;
  }

  /** With distinct ids, the first entry for an id is also the last. */
  lemma LookupIsLastForDistinct(s: seq<Listed>, id: NoteId)
    requires Distinct(s)
    ensures Lookup(s, id) == LastFor(s, id)
  {
    if id in Ids(s) {
      var k :| 0 <= k < |s| && s[k].id == id;
      LookupAt(s, k);
      LastForAt(s, k);
    }
  }

  /** An entry no earlier entry shares an id with is what `Lookup` finds. */
  lemma {:induction false} LookupAt(s: seq<Listed>, k: nat)
    requires k < |s| && forall j :: 0 <= j < k ==> s[j].id != s[k].id
    ensures Lookup(s, s[k].id) == Some(s[k].note)
  {
    if k > 0 {
      LookupAt(s[1..], k - 1);
    }
  }

  /** An entry no later entry shares an id with is what `LastFor` finds. */
  lemma {:induction false} LastForAt(s: seq<Listed>, k: nat)
    requires k < |s| && forall j :: k < j < |s| ==> s[j].id != s[k].id
    ensures LastFor(s, s[k].id) == Some(s[k].note)
  {
    if k < |s| - 1 {
      LastForAt(s[..|s| - 1], k);
    }
  }

  /** Seconds of a timestamp, 0 when absent. */
  function Seconds(t: Option<nat>): nat {
    t.GetOr(0)
  }

  /** The sort key: `updatedAt` seconds, or `createdAt` seconds when that is absent or 0, or 0. */
  function SortKey(l: Listed): nat {
    if Seconds(l.note.updatedAt) != 0 then Seconds(l.note.updatedAt) else Seconds(l.note.createdAt)
  }

  /** The list as shown: the same notes, latest update first. */
  function SortNewestFirst(notes: seq<Listed>): (r: seq<Listed>)
    ensures multiset(r) == multiset(notes)
    ensures forall i, j :: 0 <= i < j < |r| ==> SortKey(r[i]) >= SortKey(r[j])
  {
    SortDesc(notes, SortKey)
  }
}
