/**
 * The note record (the object literal built at script.js:87-95) and the
 * invariants the note list keeps.
 */
module Notes {
  import opened Wrappers
  import opened Text
  import opened Tags

  /**
   * A note. The ISO-8601 `createdISO`/`updatedISO` strings are modelled by
   * integer clock readings, ordered like the instants they denote.
   */
  datatype Note = Note(
    id: string,
    title: string,
    content: string,
    tags: seq<string>,
    pinned: bool,
    created: int,
    updated: int)

  predicate HasId(notes: seq<Note>, id: string) {
    exists i :: 0 <= i < |notes| && notes[i].id == id
  }

  ghost predicate UniqueIds(notes: seq<Note>) {
    forall i, j :: 0 <= i < j < |notes| ==> notes[i].id != notes[j].id
  }

  /** Ids are unique, titles and contents are trimmed and every tag list is normalised. */
  ghost predicate WellFormed(notes: seq<Note>) {
    && UniqueIds(notes)
    && forall i :: 0 <= i < |notes| ==>
         IsTrimmed(notes[i].title) && IsTrimmed(notes[i].content) && TagsClean(notes[i].tags)
  }

  /** No note was updated before it was created. */
  ghost predicate Chronological(notes: seq<Note>) {
    forall i :: 0 <= i < |notes| ==> notes[i].created <= notes[i].updated
  }

  /** No note was created after `now`: the clock has not gone backwards. */
  ghost predicate CreatedBy(notes: seq<Note>, now: int) {
    forall i :: 0 <= i < |notes| ==> notes[i].created <= now
  }

  /** `notes.find(n => n.id === id)`, as the position of the first match. */
  function FindIndex(notes: seq<Note>, id: string): (r: Option<nat>)
    ensures r.Some? ==> r.value < |notes| && notes[r.value].id == id
                        && forall j :: 0 <= j < r.value ==> notes[j].id != id
    ensures r.None? <==> !HasId(notes, id)
  {
    if notes == [] then None
    else if notes[0].id == id then Some(0)
    else
      match FindIndex(notes[1..], id)
      case None => None
      case Some(k) => Some(k + 1)
  }

  /** With unique ids the match is the only note carrying that id. */
  lemma FindIndexUnique(notes: seq<Note>, id: string, j: nat)
    requires UniqueIds(notes) && j < |notes| && notes[j].id == id
    ensures FindIndex(notes, id) == Some(j)
  {
  }

  /** The search depends on nothing but the sequence of ids. */
  lemma {:induction false} FindIndexByIds(a: seq<Note>, b: seq<Note>, id: string)
    requires |a| == |b| && forall k :: 0 <= k < |a| ==> a[k].id == b[k].id
    ensures FindIndex(a, id) == FindIndex(b, id)
  {
    if a != [] && a[0].id != id {
      FindIndexByIds(a[1..], b[1..], id);
    }
  }
}
