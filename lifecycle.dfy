/**
 * The changes the event handlers make to the note list, as functions from
 * the old list to the new one: create (script.js:79-102), edit
 * (script.js:174-186), delete by id (script.js:190, script.js:271), clone
 * (script.js:276-280) and toggle pin (script.js:283-287). Fresh ids and
 * clock readings are parameters.
 */
module Lifecycle {
  import opened Wrappers
  import opened Seqs
  import opened Text
  import opened Tags
  import opened Notes

  /** The only reason to refuse a new note: the "Write something!" alert. */
  datatype CreateError = NothingWritten

  /** The record the add handler puts in front of the list. */
  function NewNote(id: string, title: string, content: string, tagsRaw: string, now: int): Note {
    Note(id, Trim(title), Trim(content), CleanTags(tagsRaw), false, now, now)
  }

  /**
   * The add handler: refused when both trimmed fields are empty, otherwise
   * the new note goes in front of the unchanged list.
   */
  function Create(notes: seq<Note>, id: string, title: string, content: string, tagsRaw: string, now: int)
    : (r: Result<seq<Note>, CreateError>)
    ensures r.Failure? <==> Trim(title) == [] && Trim(content) == []
    ensures r.Success? ==>
      && |r.value| == |notes| + 1
      && r.value[1..] == notes
      && r.value[0].id == id
      && r.value[0].title == Trim(title) && r.value[0].content == Trim(content)
      && r.value[0].tags == CleanTags(tagsRaw)
      && !r.value[0].pinned
      && r.value[0].created == now && r.value[0].updated == now
  {
    if Trim(title) == [] && Trim(content) == [] then Failure(NothingWritten)
    else Success([NewNote(id, title, content, tagsRaw, now)] + notes)
  }

  /**
   * The save button of the edit dialog: the first note carrying `id` gets
   * the trimmed title and content, the cleaned tags and a new update time;
   * with no such note the list is unchanged.
   */
  function Edit(notes: seq<Note>, id: string, title: string, content: string, tagsRaw: string, now: int)
    : (r: seq<Note>)
    ensures |r| == |notes|
    ensures !HasId(notes, id) ==> r == notes
    ensures HasId(notes, id) ==>
      var i := FindIndex(notes, id).value;
      && r[i].id == notes[i].id && r[i].pinned == notes[i].pinned && r[i].created == notes[i].created
      && r[i].title == Trim(title) && r[i].content == Trim(content)
      && r[i].tags == CleanTags(tagsRaw) && r[i].updated == now
      && forall j :: 0 <= j < |notes| && j != i ==> r[j] == notes[j]
  {
    match FindIndex(notes, id)
    case None => notes
    case Some(i) =>
      notes[i := notes[i].(title := Trim(title), content := Trim(content), tags := CleanTags(tagsRaw), updated := now)]
  }

  /** The predicate `n => n.id !== id` of both delete handlers. */
  function OtherThan(id: string): Note -> bool {
    (n: Note) => n.id != id
  }

  /** `notes.filter(n => n.id !== id)`. */
  function RemoveId(notes: seq<Note>, id: string): (r: seq<Note>)
    ensures forall n :: n in r <==> n in notes && n.id != id
    ensures forall n :: multiset(r)[n] == if n.id != id then multiset(notes)[n] else 0
    ensures !HasId(r, id)
    ensures IsSubseq(r, notes)
  {
    FilterIsSubseq(notes, OtherThan(id));
    FilterMembers(notes, OtherThan(id));
    FilterCount(notes, OtherThan(id));
    Filter(notes, OtherThan(id))
  }

  /**
   * The clone button: a copy of the first note carrying `id`, with a new id,
   * goes in front of the unchanged list. The handler reads the clock twice,
   * once for each time, so the two stamps are separate parameters.
   */
  function Clone(notes: seq<Note>, id: string, newId: string, createdAt: int, updatedAt: int): (r: seq<Note>)
    requires HasId(notes, id)
    ensures |r| == |notes| + 1 && r[1..] == notes
    ensures var src := notes[FindIndex(notes, id).value];
      && r[0].id == newId
      && r[0].title == src.title && r[0].content == src.content
      && r[0].tags == src.tags && r[0].pinned == src.pinned
      && r[0].created == createdAt && r[0].updated == updatedAt
  {
    var src := notes[FindIndex(notes, id).value];
    [src.(id := newId, created := createdAt, updated := updatedAt)] + notes
  }

  /** The pin button: flips `pinned` of the first note carrying `id` and stamps it. */
  function TogglePin(notes: seq<Note>, id: string, now: int): (r: seq<Note>)
    requires HasId(notes, id)
    ensures |r| == |notes|
    ensures var i := FindIndex(notes, id).value;
      && r[i].pinned == !notes[i].pinned && r[i].updated == now
      && r[i].id == notes[i].id && r[i].title == notes[i].title && r[i].content == notes[i].content
      && r[i].tags == notes[i].tags && r[i].created == notes[i].created
      && forall j :: 0 <= j < |notes| && j != i ==> r[j] == notes[j]
  {
    var i := FindIndex(notes, id).value;
    notes[i := notes[i].(pinned := !notes[i].pinned, updated := now)]
  }

  // ----- Invariants kept by each change -----

  /**
   * With a fresh id, creating keeps the ids unique and the tag lists clean;
   * and, the clock being monotonic, no note was updated before it was created.
   */
  lemma CreateKeepsInvariants(notes: seq<Note>, id: string, title: string, content: string, tagsRaw: string, now: int)
    requires WellFormed(notes) && !HasId(notes, id)
    requires Create(notes, id, title, content, tagsRaw, now).Success?
    ensures WellFormed(Create(notes, id, title, content, tagsRaw, now).value)
    ensures Chronological(notes) ==> Chronological(Create(notes, id, title, content, tagsRaw, now).value)
    ensures CreatedBy(notes, now) ==> CreatedBy(Create(notes, id, title, content, tagsRaw, now).value, now)
  {
    var r := Create(notes, id, title, content, tagsRaw, now).value;
    forall j | 0 < j < |r| ensures r[j] == notes[j - 1] {
      assert r[j] == r[1..][j - 1];
    }
  }

  /** Editing keeps the invariants; a clock that has not gone back keeps the times in order. */
  lemma EditKeepsInvariants(notes: seq<Note>, id: string, title: string, content: string, tagsRaw: string, now: int)
    requires WellFormed(notes)
    ensures WellFormed(Edit(notes, id, title, content, tagsRaw, now))
    ensures Chronological(notes) && CreatedBy(notes, now) ==>
      Chronological(Edit(notes, id, title, content, tagsRaw, now))
  {
  }

  /**
   * Saving a blank title and content is accepted by the edit dialog, though
   * the same input is refused when creating.
   */
  lemma BlankEditAccepted(notes: seq<Note>, id: string, newId: string, tagsRaw: string, now: int)
    requires HasId(notes, id)
    ensures Create(notes, newId, "", "", tagsRaw, now).Failure?
    ensures var r := Edit(notes, id, "", "", tagsRaw, now);
      var i := FindIndex(notes, id).value;
      r[i].title == [] && r[i].content == [] && r[i].updated == now
  {
    TrimTrimmed("");
  }

  /**
   * The edit dialog shows the note's title, content and tags joined with
   * ", " (script.js:160-162); saving it untouched changes nothing but the
   * update time of that note.
   */
  lemma SaveUnchangedDialog(notes: seq<Note>, id: string, now: int)
    requires WellFormed(notes) && HasId(notes, id)
    ensures var i := FindIndex(notes, id).value;
      var n := notes[i];
      Edit(notes, id, n.title, n.content, Join(n.tags, ", "), now) == notes[i := n.(updated := now)]
  {
    var n := notes[FindIndex(notes, id).value];
    TrimTrimmed(n.title);
    TrimTrimmed(n.content);
    CleanTagsOfJoined(n.tags);
  }

  /** Two sample inputs: nothing written is refused; content alone suffices. */
  lemma CreateExamples(notes: seq<Note>, id: string, now: int)
    ensures Create(notes, id, "", "", "", now).Failure?
    ensures Create(notes, id, "  ", "x", "", now).Success?
  {
    assert Trim("x") == "x" by {
      assert IsTrimmed("x");
      TrimTrimmed("x");
    }
  }

  /** Filtering keeps ids unique: what is kept is drawn from the original. */
  lemma {:induction false} FilterUniqueIds(notes: seq<Note>, p: Note -> bool)
    requires UniqueIds(notes)
    ensures UniqueIds(Filter(notes, p))
  {
    if notes != [] {
      var rest := notes[1..];
      FilterUniqueIds(rest, p);
      var fr := Filter(rest, p);
      FilterMembers(rest, p);
      forall k | 0 <= k < |fr| ensures fr[k].id != notes[0].id {
        assert fr[k] in rest;
        var j :| 0 <= j < |rest| && rest[j] == fr[k];
        assert notes[j + 1] == fr[k];
      }
    }
  }

  /** Deleting keeps every invariant: the remaining notes are unchanged. */
  lemma RemoveIdKeepsInvariants(notes: seq<Note>, id: string)
    requires WellFormed(notes)
    ensures WellFormed(RemoveId(notes, id))
    ensures Chronological(notes) ==> Chronological(RemoveId(notes, id))
  {
    var r := RemoveId(notes, id);
    FilterUniqueIds(notes, OtherThan(id));
    forall k | 0 <= k < |r| ensures exists j :: 0 <= j < |notes| && notes[j] == r[k] {
      assert r[k] in notes;
    }
  }

  /**
   * With a fresh id, the clone keeps the ids unique; when the second clock
   * reading is not earlier than the first, the times stay ordered.
   */
  lemma CloneKeepsInvariants(notes: seq<Note>, id: string, newId: string, createdAt: int, updatedAt: int)
    requires WellFormed(notes) && HasId(notes, id) && !HasId(notes, newId)
    ensures WellFormed(Clone(notes, id, newId, createdAt, updatedAt))
    ensures Chronological(notes) && createdAt <= updatedAt ==> Chronological(Clone(notes, id, newId, createdAt, updatedAt))
  {
    var r := Clone(notes, id, newId, createdAt, updatedAt);
    forall j | 0 < j < |r| ensures r[j] == notes[j - 1] {
      assert r[j] == r[1..][j - 1];
    }
  }

  /** Pinning keeps the invariants; a clock that has not gone back keeps the times in order. */
  lemma TogglePinKeepsInvariants(notes: seq<Note>, id: string, now: int)
    requires WellFormed(notes) && HasId(notes, id)
    ensures WellFormed(TogglePin(notes, id, now))
    ensures Chronological(notes) && CreatedBy(notes, now) ==> Chronological(TogglePin(notes, id, now))
  {
  }

  // ----- Relations between the changes -----

  /** Deleting the same id twice is deleting it once. */
  lemma RemoveIdTwice(notes: seq<Note>, id: string)
    ensures RemoveId(RemoveId(notes, id), id) == RemoveId(notes, id)
  {
    FilterIdempotent(notes, OtherThan(id));
  }

  /** Deleting an id nobody carries changes nothing. */
  lemma RemoveIdAbsent(notes: seq<Note>, id: string)
    requires !HasId(notes, id)
    ensures RemoveId(notes, id) == notes
  {
    FilterKeepsAll(notes, OtherThan(id));
  }

  /** With unique ids, deleting cuts exactly the one note out and closes the gap. */
  lemma RemoveIdUnique(notes: seq<Note>, id: string)
    requires UniqueIds(notes) && HasId(notes, id)
    ensures var i := FindIndex(notes, id).value;
      RemoveId(notes, id) == notes[..i] + notes[i + 1..]
  {
    var i := FindIndex(notes, id).value;
    FilterDropsOne(notes, i, OtherThan(id));
  }

  lemma DropOne(n: Note, p: Note -> bool)
    requires !p(n)
    ensures Filter([n], p) == []
  {
    assert [n][1..] == [];
  }

  /** Deleting a note that was just created restores the old list. */
  lemma RemoveUndoesCreate(notes: seq<Note>, id: string, title: string, content: string, tagsRaw: string, now: int)
    requires !HasId(notes, id)
    requires Create(notes, id, title, content, tagsRaw, now).Success?
    ensures RemoveId(Create(notes, id, title, content, tagsRaw, now).value, id) == notes
  {
    var r := Create(notes, id, title, content, tagsRaw, now).value;
    assert r == [r[0]] + notes;
    FilterAppend([r[0]], notes, OtherThan(id));
    DropOne(r[0], OtherThan(id));
    FilterKeepsAll(notes, OtherThan(id));
  }

  /** Deleting a clone by its new id restores the old list. */
  lemma RemoveUndoesClone(notes: seq<Note>, id: string, newId: string, createdAt: int, updatedAt: int)
    requires HasId(notes, id) && !HasId(notes, newId)
    ensures RemoveId(Clone(notes, id, newId, createdAt, updatedAt), newId) == notes
  {
    var r := Clone(notes, id, newId, createdAt, updatedAt);
    assert r == [r[0]] + notes;
    FilterAppend([r[0]], notes, OtherThan(newId));
    DropOne(r[0], OtherThan(newId));
    FilterKeepsAll(notes, OtherThan(newId));
  }

  /**
   * Toggling the pin twice restores `pinned`: the list differs from the
   * original only in the update time of that one note.
   */
  lemma TogglePinTwice(notes: seq<Note>, id: string, t1: int, t2: int)
    requires HasId(notes, id)
    ensures var once := TogglePin(notes, id, t1);
      HasId(once, id) &&
      var i := FindIndex(notes, id).value;
      TogglePin(once, id, t2) == notes[i := notes[i].(updated := t2)]
  {
    var i := FindIndex(notes, id).value;
    var once := TogglePin(notes, id, t1);
    FindIndexByIds(notes, once, id);
    assert once[i].id == id;
  }
}
