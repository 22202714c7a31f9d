/**
 * The module-level `notes` array and `state` object of script.js:5-13, and
 * the event handlers that change them step by step. Every handler that
 * changes `notes` is proved to produce the list the matching function of
 * `Lifecycle` describes and to keep `Valid()`.
 */
module Store {
  import opened Wrappers
  import opened Text
  import opened Tags
  import opened Notes
  import opened Query
  import opened TagList
  import opened Lifecycle

  class NoteStore {
    var notes: seq<Note>
    var search: string
    var tag: string
    var sortRecent: bool
    var pinnedOnly: bool
    var editingId: Option<string>

    /** Ids unique, fields trimmed, tag lists normalised. */
    ghost predicate Valid()
      reads this
    {
      WellFormed(notes)
    }

    /** The filter and sort settings as one value. */
    function CurrentView(): View
      reads this
    {
      View(search, tag, sortRecent, pinnedOnly)
    }

    /** Start-up: `saved` is the list read back from storage; the settings take their defaults. */
    constructor (saved: seq<Note>)
      requires WellFormed(saved)
      ensures Valid()
      ensures notes == saved
      ensures search == [] && tag == AnyTag && sortRecent && !pinnedOnly && editingId == None
    {
      notes := saved;
      search := [];
      tag := AnyTag;
      sortRecent := true;
      pinnedOnly := false;
      editingId := None;
    }

    /**
     * `render`: the displayed list, the tag filter choices, the quick tags
     * and the note count. Reading only, nothing changes.
     */
    method Render() returns (shown: seq<Note>, choices: seq<string>, quick: seq<string>, count: nat)
      ensures shown == VisibleNotes(notes, CurrentView())
      ensures forall n :: multiset(shown)[n] == if Visible(n, CurrentView()) then multiset(notes)[n] else 0
      ensures forall i, j :: 0 <= i < j < |shown| ==> shown[i].pinned || !shown[j].pinned
      ensures choices == AllTags(notes) && quick == QuickTags(notes)
      ensures count == |notes|
    {
      var list := FilterVisible(notes, CurrentView());
      shown := SortNotes(list, sortRecent);
      VisibleNotesSpec(notes, CurrentView());
      choices := AllTags(notes);
      quick := QuickTags(notes);
      count := |notes|;
    }

    /**
     * The add button. `id` is the fresh id and `now` the clock reading.
     * Refused (`added` false, nothing changes) when both trimmed fields are
     * empty; otherwise the new note is put in front.
     */
    method Add(id: string, title: string, content: string, tagsRaw: string, now: int) returns (added: bool)
      requires Valid() && !HasId(notes, id)
      modifies this`notes
      ensures Valid()
      ensures added <==> Create(old(notes), id, title, content, tagsRaw, now).Success?
      ensures added ==> notes == Create(old(notes), id, title, content, tagsRaw, now).value
      ensures !added ==> notes == old(notes)
      ensures Chronological(old(notes)) ==> Chronological(notes)
    {
      var t := Trim(title);
      var c := Trim(content);
      var tags := CleanTags(tagsRaw);
      if t == [] && c == [] {
        return false;
      }
      CreateKeepsInvariants(notes, id, title, content, tagsRaw, now);
      notes := [Note(id, t, c, tags, false, now, now)] + notes;
      added := true;
    }

    /** The search box: the query is stored lower-cased. */
    method SetSearch(text: string)
      modifies this`search
      ensures search == Lower(text)
      ensures forall n: Note :: ContainsIgnoringCase(n.title, text) ==> MatchesSearch(n, search)
    {
      search := Lower(text);
      forall n: Note | ContainsIgnoringCase(n.title, text) ensures MatchesSearch(n, search) {
        SearchIgnoresCase(n, text);
      }
    }

    /** The tag drop-down, or a click on a tag of a card. */
    method SetTagFilter(t: string)
      modifies this`tag
      ensures tag == t
    {
      tag := t;
    }

    /** The sort button flips between newest and oldest first. */
    method ToggleSortOrder()
      modifies this`sortRecent
      ensures sortRecent == !old(sortRecent)
    {
      sortRecent := !sortRecent;
    }

    /** The pinned-only button. */
    method TogglePinnedOnly()
      modifies this`pinnedOnly
      ensures pinnedOnly == !old(pinnedOnly)
    {
      pinnedOnly := !pinnedOnly;
    }

    /**
     * `openModal` on the note carrying `id`: remembers which note is being
     * edited and returns the three dialog fields, tags joined with ", ".
     */
    method OpenEditor(id: string) returns (titleText: string, contentText: string, tagsText: string)
      requires HasId(notes, id)
      modifies this`editingId
      ensures editingId == Some(id)
      ensures var n := notes[FindIndex(notes, id).value];
        titleText == n.title && contentText == n.content && tagsText == Join(n.tags, ", ")
    {
      var n := notes[FindIndex(notes, id).value];
      editingId := Some(id);
      titleText := n.title;
      contentText := n.content;
      tagsText := Join(n.tags, ", ");
    }

    /** `closeModal`. */
    method CloseEditor()
      modifies this`editingId
      ensures editingId == None
    {
      editingId := None;
    }

    /**
     * The save button of the dialog: the note being edited gets the new
     * fields one by one; then the dialog closes. With no such note only the
     * dialog closes.
     */
    method SaveEdit(title: string, content: string, tagsRaw: string, now: int)
      requires Valid()
      modifies this`notes, this`editingId
      ensures Valid()
      ensures editingId == None
      ensures old(editingId).None? ==> notes == old(notes)
      ensures old(editingId).Some? ==> notes == Edit(old(notes), old(editingId).value, title, content, tagsRaw, now)
      ensures Chronological(old(notes)) && CreatedBy(old(notes), now) ==> Chronological(notes)
    {
      if editingId.Some? {
        var found := FindIndex(notes, editingId.value);
        if found.Some? {
          EditKeepsInvariants(notes, editingId.value, title, content, tagsRaw, now);
          ghost var edited := Edit(notes, editingId.value, title, content, tagsRaw, now);
          var i := found.value;
          var note := notes[i];
          note := note.(title := Trim(title));
          note := note.(content := Trim(content));
          note := note.(tags := CleanTags(tagsRaw));
          note := note.(updated := now);
          notes := notes[i := note];
          assert notes == edited;
        }
      }
      editingId := None;
    }

    /**
     * The delete button of the dialog: once confirmed, every note carrying
     * the edited id goes and the dialog closes; unconfirmed, nothing changes.
     */
    method DeleteEditing(confirmed: bool)
      requires Valid()
      modifies this`notes, this`editingId
      ensures Valid()
      ensures !confirmed ==> notes == old(notes) && editingId == old(editingId)
      ensures confirmed && old(editingId).Some? ==> notes == RemoveId(old(notes), old(editingId).value)
      ensures confirmed && old(editingId).None? ==> notes == old(notes)
      ensures confirmed ==> editingId == None
      ensures Chronological(old(notes)) ==> Chronological(notes)
    {
      if !confirmed {
        return;
      }
      if editingId.Some? {
        RemoveIdKeepsInvariants(notes, editingId.value);
        notes := RemoveId(notes, editingId.value);
      }
      editingId := None;
    }

    /** The delete button of a card: once confirmed, every note carrying `id` goes. */
    method DeleteNote(id: string, confirmed: bool)
      requires Valid()
      modifies this`notes
      ensures Valid()
      ensures confirmed ==> notes == RemoveId(old(notes), id)
      ensures !confirmed ==> notes == old(notes)
      ensures Chronological(old(notes)) ==> Chronological(notes)
    {
      if confirmed {
        RemoveIdKeepsInvariants(notes, id);
        notes := RemoveId(notes, id);
      }
    }

    /**
     * The clone button of a card: a copy under the fresh id `newId` goes in
     * front, stamped by two clock readings `createdAt` and `updatedAt`.
     */
    method CloneNote(id: string, newId: string, createdAt: int, updatedAt: int)
      requires Valid() && HasId(notes, id) && !HasId(notes, newId)
      modifies this`notes
      ensures Valid()
      ensures notes == Clone(old(notes), id, newId, createdAt, updatedAt)
      ensures Chronological(old(notes)) && createdAt <= updatedAt ==> Chronological(notes)
    {
      CloneKeepsInvariants(notes, id, newId, createdAt, updatedAt);
      var note := notes[FindIndex(notes, id).value];
      var copy := note.(id := newId, created := createdAt, updated := updatedAt);
      notes := [copy] + notes;
    }

    /** The pin button of a card: flips `pinned` and stamps the note. */
    method TogglePinNote(id: string, now: int)
      requires Valid() && HasId(notes, id)
      modifies this`notes
      ensures Valid()
      ensures notes == TogglePin(old(notes), id, now)
      ensures Chronological(old(notes)) && CreatedBy(old(notes), now) ==> Chronological(notes)
    {
      TogglePinKeepsInvariants(notes, id, now);
      var i := FindIndex(notes, id).value;
      notes := notes[i := notes[i].(pinned := !notes[i].pinned)];
      notes := notes[i := notes[i].(updated := now)];
    }

    /** The clear-all button: once confirmed, the list is emptied. */
    method ClearAll(confirmed: bool)
      requires Valid()
      modifies this`notes
      ensures confirmed ==> notes == []
      ensures !confirmed ==> notes == old(notes)
      ensures Valid()
    {
      if confirmed {
        notes := [];
      }
    }
  }
}
